/** The string handling of `load_config`: a configuration value is a list of
    non-empty, stripped strings (feed URLs or keyword queries), read either
    from an environment variable's content or from the lines of a file. */
module Config {
  import opened Text
  import opened Wrappers

  /** The line separator of multi-line content. */
  const NewLine: char := '\n'

  /** The separator of single-line content. */
  const Semicolon: char := ';'

  /** The comment marker of a configuration file line. */
  const CommentMark: char := '#'

  /** `[p.strip() for p in pieces if p.strip()]`: each piece stripped, those
      that strip to nothing dropped, the rest in order. */
  function StrippedNonEmpty(pieces: seq<string>): (r: seq<string>)
    decreases |pieces|
  {
    if pieces == [] then []
    else
      var s := Strip(pieces[0]);
      (if s != [] then [s] else []) + StrippedNonEmpty(pieces[1..])
  }

  /** The items of a variable's content: split on newlines when the content
      has one, on semicolons otherwise. */
  function ParseConfigContent(content: string): (items: seq<string>)
  {
    if NewLine in content then StrippedNonEmpty(Split(content, [NewLine]))
    else StrippedNonEmpty(Split(content, [Semicolon]))
  }

  /** `[line.strip() for line in f if line.strip() and not line.startswith('#')]`:
      the comment test looks at the line as read, before stripping. */
  function ParseConfigFile(lines: seq<string>): (items: seq<string>)
    decreases |lines|
  {
    if lines == [] then []
    else
      var line := lines[0];
      var s := Strip(line);
      (if s != [] && !IsComment(line) then [s] else [])
        + ParseConfigFile(lines[1..])
  }

  /** `load_config`: a set, non-empty environment value wins; otherwise the
      file when it exists; otherwise nothing. `env` is the variable's value
      (`None` when no variable is named or it is unset) and `file` the file's
      lines (`None` when there is no such file). */
  function LoadConfig(env: Option<string>, file: Option<seq<string>>): (items: seq<string>)
  {
    if env.Some? && env.value != [] then ParseConfigContent(env.value)
    else if file.Some? then ParseConfigFile(file.value)
    else []
  }

  /** A configuration item: non-empty and without surrounding whitespace. */
  predicate IsItem(x: string)
  {
    x != [] && Strip(x) == x
  }

  /** `line.startswith('#')`, on the line as read. */
  predicate IsComment(line: string)
  {
    |line| > 0 && line[0] == CommentMark
  }

  /** What the filter keeps is items, never more of them than pieces. */
  lemma {:induction false} StrippedNonEmptyItems(pieces: seq<string>)
    ensures var r := StrippedNonEmpty(pieces);
      |r| <= |pieces| && forall i :: 0 <= i < |r| ==> IsItem(r[i])
    decreases |pieces|
  {
    if pieces != [] {
      StrippedNonEmptyItems(pieces[1..]);
      StripIdempotent(pieces[0]);
    }
  }

  /** The filter works piece by piece: filtering a concatenation filters each
      part. */
  lemma {:induction false} StrippedNonEmptyConcat(a: seq<string>, b: seq<string>)
    ensures StrippedNonEmpty(a + b) == StrippedNonEmpty(a) + StrippedNonEmpty(b)
    decreases |a|
  {
    if a == [] {
      assert a + b == b;
    } else {
      var head := StrippedNonEmpty([a[0]]);
      StrippedNonEmptyCons(a);
      StrippedNonEmptyCons(a + b);
      assert (a + b)[0] == a[0] && (a + b)[1..] == a[1..] + b;
      StrippedNonEmptyConcat(a[1..], b);
      assert head + (StrippedNonEmpty(a[1..]) + StrippedNonEmpty(b))
        == (head + StrippedNonEmpty(a[1..])) + StrippedNonEmpty(b);
    }
  }

  /** The first piece is filtered on its own, then the rest. */
  lemma StrippedNonEmptyCons(pieces: seq<string>)
    requires pieces != []
    ensures StrippedNonEmpty(pieces) == StrippedNonEmpty([pieces[0]]) + StrippedNonEmpty(pieces[1..])
  {
    assert [pieces[0]][1..] == [];
  }

  /** A single piece is kept, stripped, exactly when it does not strip to
      nothing. */
  lemma StrippedNonEmptySingle(piece: string)
    ensures StrippedNonEmpty([piece]) == if Strip(piece) != [] then [Strip(piece)] else []
  {
    assert [piece][1..] == [];
  }

  /** Pieces that are already items pass the filter unchanged. */
  lemma {:induction false} StrippedNonEmptyOfItems(items: seq<string>)
    requires forall i :: 0 <= i < |items| ==> IsItem(items[i])
    ensures StrippedNonEmpty(items) == items
    decreases |items|
  {
    if items != [] {
      StrippedNonEmptyOfItems(items[1..]);
    }
  }

  /** A piece that does not contain character `c` strips to one that does not
      either. */
  lemma {:induction false} StrippedAvoid(pieces: seq<string>, c: char)
    requires forall p :: p in pieces ==> c !in p
    ensures forall x :: x in StrippedNonEmpty(pieces) ==> c !in x
    decreases |pieces|
  {
    if pieces != [] {
      assert pieces[0] in pieces;
      assert forall p :: p in pieces[1..] ==> p in pieces;
      StripKeepsChars(pieces[0]);
      StrippedAvoid(pieces[1..], c);
    }
  }

  /** The pieces of a split on a one-character separator do not hold it. */
  lemma SplitAvoids(s: string, c: char)
    ensures forall p :: p in Split(s, [c]) ==> c !in p
  {
    SplitPiecesFree(s, [c]);
    forall p | p in Split(s, [c]) ensures c !in p {
      ContainsChar(p, c);
    }
  }

  /** Items parsed from a variable are items, never span a line, and, when the
      content is a single line, never hold a semicolon. */
  lemma ParseConfigContentItems(content: string)
    ensures var items := ParseConfigContent(content);
      && (forall i :: 0 <= i < |items| ==> IsItem(items[i]))
      && (forall x :: x in items ==> NewLine !in x)
      && (NewLine !in content ==> forall x :: x in items ==> Semicolon !in x)
  {
    if NewLine in content {
      SplitAvoids(content, NewLine);
      StrippedAvoid(Split(content, [NewLine]), NewLine);
      StrippedNonEmptyItems(Split(content, [NewLine]));
    } else {
      var pieces := Split(content, [Semicolon]);
      SplitAvoids(content, Semicolon);
      StrippedAvoid(pieces, Semicolon);
      JoinSplit(content, [Semicolon]);
      forall p | p in pieces ensures NewLine !in p {
        JoinHolds(pieces, [Semicolon], p);
      }
      StrippedAvoid(pieces, NewLine);
      StrippedNonEmptyItems(pieces);
    }
  }

  /** Every character of a joined piece is in the joined string. */
  lemma {:induction false} JoinHolds(parts: seq<string>, sep: string, p: string)
    requires p in parts
    ensures forall c :: c in p ==> c in Join(parts, sep)
    decreases |parts|
  {
    if |parts| > 1 && p != parts[0] {
      JoinHolds(parts[1..], sep, p);
    }
  }

  /** Round trip: items without separators, written on one line joined by
      semicolons, are read back as they were. */
  lemma SemicolonRoundTrip(items: seq<string>)
    requires |items| >= 1
    requires forall i :: 0 <= i < |items| ==> IsItem(items[i])
    requires forall x :: x in items ==> Semicolon !in x && NewLine !in x
    ensures ParseConfigContent(Join(items, [Semicolon])) == items
  {
    JoinAvoids(items, [Semicolon], NewLine);
    SplitJoin(items, Semicolon);
    StrippedNonEmptyOfItems(items);
  }

  /** Round trip: items without newlines, one per line, are read back as they
      were; a semicolon inside an item is then kept. */
  lemma NewLineRoundTrip(items: seq<string>)
    requires |items| >= 2
    requires forall i :: 0 <= i < |items| ==> IsItem(items[i])
    requires forall x :: x in items ==> NewLine !in x
    ensures ParseConfigContent(Join(items, [NewLine])) == items
  {
    assert Join(items, [NewLine]) == items[0] + [NewLine] + Join(items[1..], [NewLine]);
    assert NewLine in Join(items, [NewLine]) by {
      assert Join(items, [NewLine])[|items[0]|] == NewLine;
    }
    SplitJoin(items, NewLine);
    StrippedNonEmptyOfItems(items);
  }

  /** File lines: the items are items, never more of them than lines. */
  lemma {:induction false} ParseConfigFileItems(lines: seq<string>)
    ensures var r := ParseConfigFile(lines);
      |r| <= |lines| && forall i :: 0 <= i < |r| ==> IsItem(r[i])
    decreases |lines|
  {
    if lines != [] {
      ParseConfigFileItems(lines[1..]);
      StripIdempotent(lines[0]);
    }
  }

  /** The file is read line by line: parsing a concatenation of lines parses
      each part. */
  lemma {:induction false} ParseConfigFileConcat(a: seq<string>, b: seq<string>)
    ensures ParseConfigFile(a + b) == ParseConfigFile(a) + ParseConfigFile(b)
    decreases |a|
  {
    if a == [] {
      assert a + b == b;
    } else {
      var head := ParseConfigFile([a[0]]);
      ParseConfigFileCons(a);
      ParseConfigFileCons(a + b);
      assert (a + b)[0] == a[0] && (a + b)[1..] == a[1..] + b;
      ParseConfigFileConcat(a[1..], b);
      assert head + (ParseConfigFile(a[1..]) + ParseConfigFile(b))
        == (head + ParseConfigFile(a[1..])) + ParseConfigFile(b);
    }
  }

  /** The first line is parsed on its own, then the rest. */
  lemma ParseConfigFileCons(lines: seq<string>)
    requires lines != []
    ensures ParseConfigFile(lines) == ParseConfigFile([lines[0]]) + ParseConfigFile(lines[1..])
  {
    assert [lines[0]][1..] == [];
  }

  /** A line starting with the comment mark is dropped. */
  lemma CommentLineDropped(line: string)
    requires |line| > 0 && line[0] == CommentMark
    ensures ParseConfigFile([line]) == []
  {
  }

  /** A comment mark after leading blanks does not make a comment: the line is
      kept, mark included. */
  lemma IndentedCommentKept(pad: string, comment: string)
    requires |pad| > 0 && forall i :: 0 <= i < |pad| ==> pad[i] == ' '
    requires IsItem(comment) && comment[0] == CommentMark
    ensures ParseConfigFile([pad + comment]) == [comment]
  {
    StripPadded(pad, comment, "");
    assert pad + comment + "" == pad + comment;
    ParseConfigFileSingle(pad + comment);
  }

  /** Whatever the source, every configured item is non-empty and stripped. */
  lemma LoadConfigItems(env: Option<string>, file: Option<seq<string>>)
    ensures forall i :: 0 <= i < |LoadConfig(env, file)| ==> IsItem(LoadConfig(env, file)[i])
  {
    if env.Some? && env.value != [] {
      ParseConfigContentItems(env.value);
    } else if file.Some? {
      ParseConfigFileItems(file.value);
    }
  }

  /** Comment marks are honoured only in the file: an item starting with the
      mark is kept when it comes from the variable and dropped when it comes
      from the file. */
  lemma CommentsOnlyInFile(item: string)
    requires IsItem(item) && item[0] == CommentMark
    requires Semicolon !in item && NewLine !in item
    ensures LoadConfig(Some(item), None) == [item]
    ensures LoadConfig(None, Some([item])) == []
  {
    assert LoadConfig(Some(item), None) == [item] by {
      assert Join([item], [Semicolon]) == item;
      SemicolonRoundTrip([item]);
    }
    assert LoadConfig(None, Some([item])) == [] by {
      ParseConfigFileSingle(item);
    }
  }

  /** A file of one line. */
  lemma ParseConfigFileSingle(line: string)
    ensures ParseConfigFile([line]) == if Strip(line) != [] && !IsComment(line) then [Strip(line)] else []
  {
    assert [line][1..] == [];
  }
}
