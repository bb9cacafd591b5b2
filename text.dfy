/** The Python `str` operations the feed merger relies on, over `string`
    (a sequence of code points). Case mapping and whitespace are the ASCII
    part of Python's rules. */
module Text {

  /** `pat` occurs in `s` starting at index `i`. */
  predicate OccursAt(s: string, pat: string, i: int)
  {
    0 <= i && i + |pat| <= |s| && s[i..i + |pat|] == pat
  }

  /** Python `s.find(pat)`: the leftmost index where `pat` occurs, or -1
      (see `IndexOfSpec`). */
  function IndexOf(s: string, pat: string): int
    decreases |s|
  {
    if |s| < |pat| then -1
    else if s[..|pat|] == pat then 0
    else
      var k := IndexOf(s[1..], pat);
      if k < 0 then -1 else k + 1
  }

  /** `IndexOf` reports an occurrence, and no occurrence lies before it; -1
      means that there is no occurrence at all. */
  lemma {:induction false} IndexOfSpec(s: string, pat: string)
    ensures var r := IndexOf(s, pat);
      && -1 <= r <= |s|
      && (r >= 0 ==> OccursAt(s, pat, r))
      && (forall j :: 0 <= j && (r < 0 || j < r) ==> !OccursAt(s, pat, j))
    decreases |s|
  {
    if |s| >= |pat| && s[..|pat|] != pat {
      IndexOfSpec(s[1..], pat);
      assert forall j :: 1 <= j ==> (OccursAt(s, pat, j) <==> OccursAt(s[1..], pat, j - 1));
    }
  }

  /** Python `pat in s`. */
  predicate Contains(s: string, pat: string)
  {
    IndexOf(s, pat) >= 0
  }

  /** `Contains` is substring containment: some occurrence exists. */
  lemma ContainsIff(s: string, pat: string)
    ensures Contains(s, pat) <==> exists i :: OccursAt(s, pat, i)
  {
    IndexOfSpec(s, pat);
  }

  /** The empty string is contained in every string. */
  lemma ContainsEmpty(s: string)
    ensures Contains(s, "")
  {
    IndexOfSpec(s, "");
    assert OccursAt(s, "", 0);
  }

  /** For a one-character pattern, containment is membership. */
  lemma ContainsChar(s: string, c: char)
    ensures Contains(s, [c]) <==> c in s
  {
    IndexOfSpec(s, [c]);
    if c in s {
      var i :| 0 <= i < |s| && s[i] == c;
      assert OccursAt(s, [c], i);
    }
    if Contains(s, [c]) {
      var i := IndexOf(s, [c]);
      assert s[i..i + 1] == [c];
      assert s[i] == c;
    }
  }

  /** A pattern with a character that `s` lacks does not occur in `s`. */
  lemma MissingCharNotContained(s: string, pat: string, c: char)
    requires c in pat && c !in s
    ensures !Contains(s, pat)
  {
    IndexOfSpec(s, pat);
    var k :| 0 <= k < |pat| && pat[k] == c;
    forall i | 0 <= i && i + |pat| <= |s| ensures !OccursAt(s, pat, i) {
      assert s[i + k] in s;
      assert s[i..i + |pat|][k] == s[i + k];
    }
  }

  /** The leftmost occurrence is the one `IndexOf` reports. */
  lemma IndexOfFirst(s: string, pat: string, k: int)
    requires OccursAt(s, pat, k)
    requires forall j :: 0 <= j < k ==> !OccursAt(s, pat, j)
    ensures IndexOf(s, pat) == k
  {
    IndexOfSpec(s, pat);
  }

  /** Python `s.replace(pat, "")`: delete the leftmost non-overlapping occurrences of `pat`. */
  function RemoveAll(s: string, pat: string): (r: string)
    requires |pat| > 0
    ensures |r| <= |s|
    decreases |s|
  {
    if |s| < |pat| then s
    else if s[..|pat|] == pat then RemoveAll(s[|pat|..], pat)
    else [s[0]] + RemoveAll(s[1..], pat)
  }

  /** Removing a pattern that does not occur leaves the string unchanged. */
  lemma {:induction false} RemoveAllAbsent(s: string, pat: string)
    requires |pat| > 0 && !Contains(s, pat)
    ensures RemoveAll(s, pat) == s
    decreases |s|
  {
    IndexOfSpec(s, pat);
    if |s| >= |pat| {
      assert !OccursAt(s, pat, 0);
      IndexOfSpec(s[1..], pat);
      assert forall j :: OccursAt(s[1..], pat, j) ==> OccursAt(s, pat, j + 1);
      RemoveAllAbsent(s[1..], pat);
      assert [s[0]] + s[1..] == s;
    }
  }

  /** Removal passes over a stretch in which no occurrence starts. */
  lemma {:induction false} RemoveAllSkip(s: string, pat: string, i: nat)
    requires |pat| > 0 && i <= |s|
    requires forall j :: 0 <= j < i ==> !OccursAt(s, pat, j)
    ensures RemoveAll(s, pat) == s[..i] + RemoveAll(s[i..], pat)
    decreases i
  {
    if i > 0 && |s| >= |pat| {
      assert s[..|pat|] != pat by {
        assert !OccursAt(s, pat, 0);
      }
      assert RemoveAll(s, pat) == [s[0]] + RemoveAll(s[1..], pat);
      forall j | 0 <= j < i - 1 ensures !OccursAt(s[1..], pat, j) {
        assert !OccursAt(s, pat, j + 1);
        if j + |pat| <= |s| - 1 {
          assert s[1..][j..j + |pat|] == s[j + 1..j + 1 + |pat|];
        }
      }
      RemoveAllSkip(s[1..], pat, i - 1);
      assert s[1..][..i - 1] == s[1..i] && s[1..][i - 1..] == s[i..];
      assert [s[0]] + s[1..i] == s[..i];
    }
  }

  /** `s.replace(pat, "")` is `"".join(s.split(pat))`: removal deletes exactly
      the separators a split cuts at. */
  lemma {:induction false} RemoveAllIsJoinSplit(s: string, pat: string)
    requires |pat| > 0
    ensures RemoveAll(s, pat) == Join(Split(s, pat), "")
    decreases |s|
  {
    IndexOfSpec(s, pat);
    var i := IndexOf(s, pat);
    if i < 0 {
      RemoveAllAbsent(s, pat);
    } else {
      var rest := s[i + |pat|..];
      RemoveAllSkip(s, pat, i);
      assert s[i..][..|pat|] == pat && s[i..][|pat|..] == rest;
      RemoveAllIsJoinSplit(rest, pat);
      assert Split(s, pat) == [s[..i]] + Split(rest, pat);
    }
  }

  /** A pattern that starts nowhere in `s + pat` before `s` ends is removed
      from the end of `s + pat`, leaving `s`. */
  lemma {:induction false} RemoveAllTrailing(s: string, pat: string)
    requires |pat| > 0
    requires forall j :: 0 <= j < |s| ==> !OccursAt(s + pat, pat, j)
    ensures RemoveAll(s + pat, pat) == s
    decreases |s|
  {
    var t := s + pat;
    if s == [] {
      assert t == pat && t[|pat|..] == [];
    } else {
      assert !OccursAt(t, pat, 0);
      assert t[1..] == s[1..] + pat;
      assert forall j :: OccursAt(s[1..] + pat, pat, j) ==> OccursAt(t, pat, j + 1);
      RemoveAllTrailing(s[1..], pat);
      assert [s[0]] + s[1..] == s;
    }
  }

  /** When a character occurs in `pat` only at index `m` and not at all in
      `s`, no occurrence of `pat` in `s + pat` starts inside `s`. */
  lemma MarkedPatternStartsAfter(s: string, pat: string, m: nat)
    requires m < |pat| && pat[m] !in s
    requires forall k :: 0 <= k < |pat| && k != m ==> pat[k] != pat[m]
    ensures forall j :: 0 <= j < |s| ==> !OccursAt(s + pat, pat, j)
  {
    var t := s + pat;
    forall j | 0 <= j < |s| ensures !OccursAt(t, pat, j) {
      if j + |pat| <= |t| {
        assert t[j + m] != pat[m] by {
          if j + m < |s| {
            assert t[j + m] == s[j + m] && s[j + m] in s;
          } else {
            assert t[j + m] == pat[j + m - |s|];
          }
        }
        assert t[j..j + |pat|][m] == t[j + m];
      }
    }
  }

  /** Python `s.split(sep)` for a non-empty separator: the pieces between the
      leftmost non-overlapping occurrences of `sep`. */
  function Split(s: string, sep: string): (r: seq<string>)
    requires |sep| > 0
    ensures |r| >= 1
    decreases |s|
  {
    IndexOfSpec(s, sep);
    var i := IndexOf(s, sep);
    if i < 0 then [s] else [s[..i]] + Split(s[i + |sep|..], sep)
  }

  /** Splitting at the first occurrence of the separator, at `n`. */
  lemma SplitAtFirst(s: string, sep: string, n: nat)
    requires |sep| > 0 && OccursAt(s, sep, n)
    requires forall j :: 0 <= j < n ==> !OccursAt(s, sep, j)
    ensures Split(s, sep) == [s[..n]] + Split(s[n + |sep|..], sep)
  {
    IndexOfFirst(s, sep, n);
  }

  /** A string without the separator is split into itself alone. */
  lemma SplitAbsent(s: string, sep: string)
    requires |sep| > 0 && !Contains(s, sep)
    ensures Split(s, sep) == [s]
  {
  }

  /** Python `sep.join(parts)`. */
  function Join(parts: seq<string>, sep: string): string
  {
    if parts == [] then ""
    else if |parts| == 1 then parts[0]
    else parts[0] + sep + Join(parts[1..], sep)
  }

  /** Joining the pieces of a split with the same separator gives back the string. */
  lemma {:induction false} JoinSplit(s: string, sep: string)
    requires |sep| > 0
    ensures Join(Split(s, sep), sep) == s
    decreases |s|
  {
    IndexOfSpec(s, sep);
    var i := IndexOf(s, sep);
    if i >= 0 {
      var rest := s[i + |sep|..];
      var tail := Split(rest, sep);
      JoinSplit(rest, sep);
      assert Split(s, sep) == [s[..i]] + tail;
      assert Join([s[..i]] + tail, sep) == s[..i] + sep + Join(tail, sep);
      assert s[i..i + |sep|] == sep;
      assert s == s[..i] + s[i..i + |sep|] + rest;
    }
  }

  /** No piece of a split contains the separator. */
  lemma {:induction false} SplitPiecesFree(s: string, sep: string)
    requires |sep| > 0
    ensures forall p :: p in Split(s, sep) ==> !Contains(p, sep)
    decreases |s|
  {
    IndexOfSpec(s, sep);
    var i := IndexOf(s, sep);
    if i >= 0 {
      SplitPiecesFree(s[i + |sep|..], sep);
      IndexOfSpec(s[..i], sep);
      forall j | OccursAt(s[..i], sep, j) ensures OccursAt(s, sep, j) {
        assert s[..i][j..j + |sep|] == s[j..j + |sep|];
      }
    }
  }

  /** Splitting the join of separator-free pieces on a one-character separator
      gives back the pieces. */
  lemma {:induction false} SplitJoin(parts: seq<string>, c: char)
    requires |parts| >= 1
    requires forall p :: p in parts ==> c !in p
    ensures Split(Join(parts, [c]), [c]) == parts
    decreases |parts|
  {
    if |parts| == 1 {
      ContainsChar(parts[0], c);
    } else {
      var head, rest := parts[0], parts[1..];
      var s := Join(parts, [c]);
      assert s == head + [c] + Join(rest, [c]);
      assert s[|head|..|head| + 1] == [c];
      forall j | 0 <= j < |head| ensures !OccursAt(s, [c], j) {
        assert s[j] == head[j];
        assert head[j] in head;
      }
      IndexOfFirst(s, [c], |head|);
      assert s[..|head|] == head;
      assert s[|head| + 1..] == Join(rest, [c]);
      SplitJoin(rest, c);
    }
  }

  /** A character absent from every piece and from the separator is absent from the join. */
  lemma {:induction false} JoinAvoids(parts: seq<string>, sep: string, c: char)
    requires c !in sep
    requires forall p :: p in parts ==> c !in p
    ensures c !in Join(parts, sep)
    decreases |parts|
  {
    if |parts| > 1 {
      JoinAvoids(parts[1..], sep, c);
    }
  }

  /** Python `str.isspace` restricted to ASCII: tab, line feed, vertical tab,
      form feed, carriage return, the four separators 0x1C-0x1F and space. */
  predicate IsSpace(c: char)
  {
    c == ' ' || (9 <= c as int <= 13) || (28 <= c as int <= 31)
  }

  /** Python `s.strip()`: drop leading and trailing whitespace, one character
      at a time from either end. */
  function Strip(s: string): (r: string)
    ensures |r| <= |s|
    ensures r == [] || (!IsSpace(r[0]) && !IsSpace(r[|r| - 1]))
    decreases |s|
  {
    if s == [] then s
    else if IsSpace(s[0]) then Strip(s[1..])
    else if IsSpace(s[|s| - 1]) then Strip(s[..|s| - 1])
    else s
  }

  /** Stripping only removes characters: every character of the result is in
      the input. */
  lemma {:induction false} StripKeepsChars(s: string)
    ensures forall c :: c in Strip(s) ==> c in s
    decreases |s|
  {
    if s != [] && IsSpace(s[0]) {
      StripKeepsChars(s[1..]);
    } else if s != [] && IsSpace(s[|s| - 1]) {
      StripKeepsChars(s[..|s| - 1]);
    }
  }

  /** Stripping is idempotent; in particular a stripped string is its own strip. */
  lemma StripIdempotent(s: string)
    ensures Strip(Strip(s)) == Strip(s)
  {
  }

  /** A string of whitespace strips to nothing. */
  lemma {:induction false} StripAllSpaces(s: string)
    requires forall i :: 0 <= i < |s| ==> IsSpace(s[i])
    ensures Strip(s) == []
    decreases |s|
  {
    if s != [] {
      StripAllSpaces(s[1..]);
    }
  }

  /** `Strip` removes exactly the whitespace padding around a word that neither
      starts nor ends with whitespace. */
  lemma {:induction false} StripPadded(pre: string, w: string, post: string)
    requires forall i :: 0 <= i < |pre| ==> IsSpace(pre[i])
    requires forall i :: 0 <= i < |post| ==> IsSpace(post[i])
    requires w == [] || (!IsSpace(w[0]) && !IsSpace(w[|w| - 1]))
    ensures Strip(pre + w + post) == w
    decreases |pre| + |post|
  {
    var s := pre + w + post;
    if pre != [] {
      assert s[0] == pre[0];
      assert s[1..] == pre[1..] + w + post;
      StripPadded(pre[1..], w, post);
    } else if w == [] {
      assert s == post;
      StripAllSpaces(post);
    } else if post != [] {
      assert s == w + post;
      assert s[0] == w[0] && s[|s| - 1] == post[|post| - 1];
      assert s[..|s| - 1] == pre + w + post[..|post| - 1];
      StripPadded(pre, w, post[..|post| - 1]);
    } else {
      assert s == w;
    }
  }

  /** A string with no ASCII capital letter is its own lower-case form. */
  lemma LowerOfLowercase(s: string)
    requires forall i :: 0 <= i < |s| ==> !('A' <= s[i] <= 'Z')
    ensures Lower(s) == s
  {
  }

  /** A string is stripped to nothing exactly when it is all whitespace. */
  lemma StripEmptyIff(s: string)
    ensures Strip(s) == [] <==> forall i :: 0 <= i < |s| ==> IsSpace(s[i])
  {
    if forall i :: 0 <= i < |s| ==> IsSpace(s[i]) {
      StripAllSpaces(s);
    } else {
      StripNotAllSpaces(s);
    }
  }

  /** A string with a non-whitespace character does not strip to nothing. */
  lemma {:induction false} StripNotAllSpaces(s: string)
    requires exists i :: 0 <= i < |s| && !IsSpace(s[i])
    ensures Strip(s) != []
    decreases |s|
  {
    var i :| 0 <= i < |s| && !IsSpace(s[i]);
    if IsSpace(s[0]) {
      assert s[1..][i - 1] == s[i];
      StripNotAllSpaces(s[1..]);
    } else if IsSpace(s[|s| - 1]) {
      assert s[..|s| - 1][i] == s[i];
      StripNotAllSpaces(s[..|s| - 1]);
    }
  }

  /** Python `c.lower()` for ASCII letters; other characters are kept. */
  function LowerChar(c: char): char
  {
    if 'A' <= c <= 'Z' then (c as int + 32) as char else c
  }

  /** Python `s.lower()` over ASCII. */
  function Lower(s: string): string
  {
    seq(|s|, i requires 0 <= i < |s| => LowerChar(s[i]))
  }

  /** A lowered string has no ASCII capital letter and lowering it again changes nothing. */
  lemma LowerIdempotent(s: string)
    ensures forall i :: 0 <= i < |s| ==> !('A' <= Lower(s)[i] <= 'Z')
    ensures Lower(Lower(s)) == Lower(s)
  {
  }
}
