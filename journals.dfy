/** Short display codes for journal names (`JOURNAL_ABBR` and `get_journal_abbr`). */
module Journals {
  import opened Text

  /** Feed titles of known journals and their display codes; read-only
      configuration. Long titles are written as concatenations of shorter
      literals; each key is the same string as in the source table. The split
      exists because the verifier cannot look inside a long string literal:
      the short pieces let the lemmas below prove which characters a key
      holds. */
  const JournalAbbr: map<string, string> := map[
    // Elsevier / ScienceDirect
    SciDirectPrefix + "Medical Image Analysis" := "MedIA",
    SciDirectPrefix + "Pattern Recognition" := "PR",
    SciDirectPrefix + "Knowledge-Based Systems" := "KBS",
    SciDirectPrefix + "Neural Networks" := "NN",
    SciDirectPrefix + "Neurocomputing" := "NC",
    SciDirectPrefix + "Computers in Biology and Medicine" := "CBM",
    SciDirectPrefix + "Biomedical Signal Processing " + "and Control" := "BSPC",
    SciDirectPrefix + "Artificial Intelligence in Medicine" := "AIM",
    SciDirectPrefix + "Engineering Applications " + "of Artificial Intelligence" := "EAAI",
    SciDirectPrefix + "Expert Systems with Applications" := "ESWA",
    SciDirectPrefix + "Information Fusion" := "IF",
    SciDirectPrefix + "NeuroImage" := "NI",
    // IEEE
    IeeeTransactions + "Medical Imaging" := "TMI",
    IeeeTransactions + "Pattern Analysis " + "and Machine Intelligence" := "TPAMI",
    IeeeTransactions + "Image Processing" := "TIP",
    IeeeTransactions + "Biomedical Engineering" := "TBME",
    "IEEE Journal of " + "Biomedical and Health Informatics" := "JBHI",
    // Wiley
    "Wiley: Medical Physics: " + "Table of Contents" := "MP",
    // arXiv
    "cs.CV updates on arXiv.org" := "arXiv-CV",
    "eess.IV updates on arXiv.org" := "arXiv-IV",
    "cs.LG updates on arXiv.org" := "arXiv-ML"
  ]

  /** The common start of IEEE Transactions feed titles. */
  const IeeeTransactions: string := "IEEE Transactions on "

  /** Suffix that some publishers append to a feed title. */
  const TocSuffix: string := " - new TOC"

  /** Publisher boilerplate in front of ScienceDirect feed titles. */
  const SciDirectPrefix: string := "ScienceDirect Publication: "

  /** Longest display code produced by the fallback. */
  const MaxAbbrLength: nat := 15

  /** Every display code in the table fits the fallback's length bound. */
  lemma TableCodesShort()
    ensures forall name :: name in JournalAbbr ==> |JournalAbbr[name]| <= MaxAbbrLength
  {
  }

  /** Every key of the table is longer than 25 characters. */
  lemma TableKeysLong()
    ensures forall name :: name in JournalAbbr ==> |name| > 25
  {
  }

  /** `get_journal_abbr`: remove every " - new TOC", look the result up in the
      table; failing that, remove the ScienceDirect prefix and keep at most 15
      characters. Whatever the name, the code has at most 15 characters. */
  function GetJournalAbbr(journalName: string): (abbr: string)
    ensures |abbr| <= MaxAbbrLength
  {
    var name := RemoveAll(journalName, TocSuffix);
    if name in JournalAbbr then
      TableCodesShort();
      JournalAbbr[name]
    else
      var short := RemoveAll(name, SciDirectPrefix);
      if |short| > MaxAbbrLength then short[..MaxAbbrLength] else short
  }

  /** Fallback: for a name missing from the table once the suffix is gone, the
      code is the longest prefix of at most 15 characters of that name with the
      ScienceDirect prefix removed. */
  lemma AbbrFallback(journalName: string)
    requires RemoveAll(journalName, TocSuffix) !in JournalAbbr
    ensures var short := RemoveAll(RemoveAll(journalName, TocSuffix), SciDirectPrefix);
      && GetJournalAbbr(journalName) <= short
      && |GetJournalAbbr(journalName)| == if |short| < MaxAbbrLength then |short| else MaxAbbrLength
  {
  }

  /** A plain name (no suffix, no prefix) outside the table is shown as its first
      15 characters, or whole when shorter. */
  lemma AbbrPlainName(journalName: string)
    requires !Contains(journalName, TocSuffix) && !Contains(journalName, SciDirectPrefix)
    requires journalName !in JournalAbbr
    ensures GetJournalAbbr(journalName)
      == if |journalName| > MaxAbbrLength then journalName[..MaxAbbrLength] else journalName
  {
    RemoveAllAbsent(journalName, TocSuffix);
    RemoveAllAbsent(journalName, SciDirectPrefix);
  }

  /** A table key without the suffix maps to its code. */
  lemma AbbrFromTable(journalName: string)
    requires !Contains(journalName, TocSuffix) && journalName in JournalAbbr
    ensures GetJournalAbbr(journalName) == JournalAbbr[journalName]
  {
    RemoveAllAbsent(journalName, TocSuffix);
  }

  /** No journal name in the table holds a capital O, the one character that
      occurs in " - new TOC" only once. */
  lemma TableKeysWithoutCapitalO()
    ensures forall name :: name in JournalAbbr ==> 'O' !in name
  {
    ScienceDirectTitlesWithoutCapitalO1();
    ScienceDirectTitlesWithoutCapitalO2();
    ScienceDirectTitlesWithoutCapitalO3();
    ScienceDirectTitlesWithoutCapitalO4();
    IeeeTitlesWithoutCapitalO();
    JournalAndWileyTitlesWithoutCapitalO();
    ArxivTitlesWithoutCapitalO();
  }

  /** The pieces of the first ScienceDirect titles hold no capital O. */
  lemma ScienceDirectTitlesWithoutCapitalO1()
    ensures 'O' !in SciDirectPrefix && 'O' !in "Medical Image Analysis"
    ensures 'O' !in "Pattern Recognition" && 'O' !in "Knowledge-Based Systems"
    ensures 'O' !in "Neural Networks" && 'O' !in "Neurocomputing"
  {
  }

  /** The pieces of more ScienceDirect titles hold no capital O. */
  lemma ScienceDirectTitlesWithoutCapitalO2()
    ensures 'O' !in "Computers in Biology and Medicine" && 'O' !in "Biomedical Signal Processing "
    ensures 'O' !in "and Control"
  {
  }

  /** The pieces of more ScienceDirect titles hold no capital O. */
  lemma ScienceDirectTitlesWithoutCapitalO3()
    ensures 'O' !in "Artificial Intelligence in Medicine" && 'O' !in "Engineering Applications "
    ensures 'O' !in "of Artificial Intelligence"
  {
  }

  /** The pieces of the last ScienceDirect titles hold no capital O. */
  lemma ScienceDirectTitlesWithoutCapitalO4()
    ensures 'O' !in "Expert Systems with Applications" && 'O' !in "Information Fusion"
    ensures 'O' !in "NeuroImage"
  {
  }

  /** The pieces of the IEEE Transactions titles hold no capital O. */
  lemma IeeeTitlesWithoutCapitalO()
    ensures 'O' !in IeeeTransactions && 'O' !in "Medical Imaging"
    ensures 'O' !in "Pattern Analysis " && 'O' !in "and Machine Intelligence"
    ensures 'O' !in "Image Processing" && 'O' !in "Biomedical Engineering"
  {
  }

  /** The pieces of the IEEE journal and Wiley titles hold no capital O. */
  lemma JournalAndWileyTitlesWithoutCapitalO()
    ensures 'O' !in "IEEE Journal of " && 'O' !in "Biomedical and Health Informatics"
    ensures 'O' !in "Wiley: Medical Physics: " && 'O' !in "Table of Contents"
  {
  }

  /** The pieces of the arXiv titles hold no capital O. */
  lemma ArxivTitlesWithoutCapitalO()
    ensures 'O' !in "cs.CV updates on arXiv.org" && 'O' !in "eess.IV updates on arXiv.org"
    ensures 'O' !in "cs.LG updates on arXiv.org"
  {
  }

  /** A table key followed by " - new TOC" gets the key's code: the suffix is
      removed before the lookup. */
  lemma AbbrOfSuffixedKey(name: string)
    requires name in JournalAbbr
    ensures GetJournalAbbr(name + TocSuffix) == JournalAbbr[name]
  {
    TableKeysWithoutCapitalO();
    MarkedPatternStartsAfter(name, TocSuffix, 8);
    RemoveAllTrailing(name, TocSuffix);
  }

  /** The table is consulted before the ScienceDirect prefix is removed: a
      journal whose prefixed feed title is a key gets the table's code, while the
      same journal named without the prefix misses the table and is truncated. */
  lemma AbbrLookupPrecedesPrefixRemoval(bare: string)
    requires SciDirectPrefix + bare in JournalAbbr && bare !in JournalAbbr
    requires !Contains(SciDirectPrefix + bare, TocSuffix)
    requires !Contains(bare, TocSuffix) && !Contains(bare, SciDirectPrefix)
    ensures GetJournalAbbr(SciDirectPrefix + bare) == JournalAbbr[SciDirectPrefix + bare]
    ensures GetJournalAbbr(bare) == if |bare| > MaxAbbrLength then bare[..MaxAbbrLength] else bare
  {
    AbbrFromTable(SciDirectPrefix + bare);
    AbbrPlainName(bare);
  }

  /** The lookup happens before the ScienceDirect prefix is removed, so the same
      journal named without the prefix is not found and falls back to truncation. */
  lemma AbbrBareNameTruncated(bare: string)
    requires bare == "Medical Image Analysis"
    ensures GetJournalAbbr(bare) == bare[..MaxAbbrLength]
  {
    assert 'T' !in bare && 'S' !in bare;
    MissingCharNotContained(bare, TocSuffix, 'T');
    MissingCharNotContained(bare, SciDirectPrefix, 'S');
    TableKeysLong();
    AbbrPlainName(bare);
  }
}
