/** Removal of the control characters that the `Char` production of XML 1.0
    (section 2.2) does not admit: code points 0-8, 11, 12 and 14-31. Tab (9),
    line feed (10) and carriage return (13) are kept. */
module XmlChars {
  import opened Sequences

  /** A code point outside the XML 1.0 `Char` production among the C0 controls. */
  predicate IsIllegalXmlChar(c: char)
  {
    var n := c as int;
    (0 <= n <= 8) || n == 11 || n == 12 || (14 <= n <= 31)
  }

  /** `remove_illegal_xml_chars`: the empty string for empty input, otherwise
      the input with every illegal character deleted. The result is no longer
      than the input and holds no illegal character. */
  function RemoveIllegalXmlChars(text: string): (r: string)
    ensures |r| <= |text|
    ensures forall i :: 0 <= i < |r| ==> !IsIllegalXmlChar(r[i])
    decreases |text|
  {
    if text == [] then ""
    else if IsIllegalXmlChar(text[0]) then RemoveIllegalXmlChars(text[1..])
    else [text[0]] + RemoveIllegalXmlChars(text[1..])
  }

  /** Only illegal characters are removed: each legal character occurs in the
      result as often as in the input, and no illegal one remains. */
  lemma {:induction false} RemoveIllegalCounts(text: string)
    ensures forall c ::
      multiset(RemoveIllegalXmlChars(text))[c] == if IsIllegalXmlChar(c) then 0 else multiset(text)[c]
    decreases |text|
  {
    if text != [] {
      RemoveIllegalCounts(text[1..]);
      assert text == [text[0]] + text[1..];
      assert multiset(text) == multiset{text[0]} + multiset(text[1..]);
    } else {
      assert multiset(RemoveIllegalXmlChars(text)) == multiset{};
    }
  }

  /** The characters kept appear in their original order. */
  lemma {:induction false} RemoveIllegalKeepsOrder(text: string)
    ensures IsSubsequence(RemoveIllegalXmlChars(text), text)
    decreases |text|
  {
    if text != [] {
      RemoveIllegalKeepsOrder(text[1..]);
    }
  }

  /** A string without illegal characters is left unchanged. */
  lemma {:induction false} RemoveIllegalOnClean(text: string)
    requires forall i :: 0 <= i < |text| ==> !IsIllegalXmlChar(text[i])
    ensures RemoveIllegalXmlChars(text) == text
    decreases |text|
  {
    if text != [] {
      RemoveIllegalOnClean(text[1..]);
    }
  }

  /** Cleaning twice is the same as cleaning once. */
  lemma RemoveIllegalIdempotent(text: string)
    ensures RemoveIllegalXmlChars(RemoveIllegalXmlChars(text)) == RemoveIllegalXmlChars(text)
  {
    RemoveIllegalOnClean(RemoveIllegalXmlChars(text));
  }

  /** Cleaning distributes over concatenation, so a string can be cleaned piece by piece. */
  lemma {:induction false} RemoveIllegalConcat(a: string, b: string)
    ensures RemoveIllegalXmlChars(a + b) == RemoveIllegalXmlChars(a) + RemoveIllegalXmlChars(b)
    decreases |a|
  {
    if a != [] {
      var rest := RemoveIllegalXmlChars(a[1..] + b);
      assert (a + b)[0] == a[0];
      assert (a + b)[1..] == a[1..] + b;
      RemoveIllegalConcat(a[1..], b);
      if IsIllegalXmlChar(a[0]) {
        assert RemoveIllegalXmlChars(a + b) == rest;
        assert RemoveIllegalXmlChars(a) == RemoveIllegalXmlChars(a[1..]);
      } else {
        assert RemoveIllegalXmlChars(a + b) == [a[0]] + rest;
        assert RemoveIllegalXmlChars(a) == [a[0]] + RemoveIllegalXmlChars(a[1..]);
        ConsAssoc(a[0], RemoveIllegalXmlChars(a[1..]), RemoveIllegalXmlChars(b));
      }
    } else {
      assert a + b == b;
    }
  }

  /** Cleaning "<open><tag><close><title>", where the fixed parts `open` and
      `close` are legal text, cleans the tag and the title apart and keeps the
      fixed parts. */
  lemma RemoveIllegalAround(open: string, tag: string, close: string, title: string)
    requires forall i :: 0 <= i < |open| ==> !IsIllegalXmlChar(open[i])
    requires forall i :: 0 <= i < |close| ==> !IsIllegalXmlChar(close[i])
    ensures RemoveIllegalXmlChars(open + tag + close + title)
      == open + RemoveIllegalXmlChars(tag) + close + RemoveIllegalXmlChars(title)
  {
    RemoveIllegalConcat(open + tag + close, title);
    RemoveIllegalConcat(open + tag, close);
    RemoveIllegalConcat(open, tag);
    RemoveIllegalOnClean(open);
    RemoveIllegalOnClean(close);
  }
}
