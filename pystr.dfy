/** The handful of Python `str` operations the extraction engine relies on,
    stated on `seq<char>`: substring search (`in`, `find`), `split`,
    `join`, `replace`, `strip` and `lower`. Only ASCII case folding and
    ASCII whitespace are modelled. */
module PyStr {
  import opened Results

  /** `sub` occurs in `s` starting at index `j`. */
  predicate OccursAt(s: string, sub: string, j: int) {
    0 <= j && j + |sub| <= |s| && s[j..j + |sub|] == sub
  }

  /** Index of the first occurrence of `sub` in `s` (Python `s.find(sub)`,
      with `None` for -1). */
  function IndexOf(s: string, sub: string): (r: Option<nat>)
    ensures r.Some? ==> r.value + |sub| <= |s|
    decreases |s|
  {
    if |s| < |sub| then None
    else if s[..|sub|] == sub then Some(0)
    else
      match IndexOf(s[1..], sub)
      case None => None
      case Some(i) => Some(i + 1)
  }

  /** `find` reports an occurrence, and no earlier one exists. */
  lemma {:induction false} IndexOfFirst(s: string, sub: string)
    ensures IndexOf(s, sub).Some? ==> OccursAt(s, sub, IndexOf(s, sub).value)
    ensures IndexOf(s, sub).Some? ==> forall j :: 0 <= j < IndexOf(s, sub).value ==> !OccursAt(s, sub, j)
    decreases |s|
  {
    if |s| >= |sub| && s[..|sub|] != sub {
      IndexOfFirst(s[1..], sub);
      match IndexOf(s[1..], sub)
      case None =>
      case Some(i) =>
        assert forall j :: 0 < j <= i && OccursAt(s, sub, j) ==> OccursAt(s[1..], sub, j - 1);
        assert s[1..][i..i + |sub|] == s[i + 1..i + 1 + |sub|];
    }
  }

  /** `find` reports -1 only when there is no occurrence at all. */
  lemma {:induction false} IndexOfNone(s: string, sub: string)
    ensures IndexOf(s, sub).None? ==> forall j :: !OccursAt(s, sub, j)
    decreases |s|
  {
    if |s| >= |sub| && s[..|sub|] != sub {
      IndexOfNone(s[1..], sub);
      if IndexOf(s, sub).None? {
        assert forall j :: OccursAt(s, sub, j) ==> j == 0 || OccursAt(s[1..], sub, j - 1);
      }
    }
  }

  /** Python's `sub in s`. */
  predicate Contains(s: string, sub: string) {
    IndexOf(s, sub).Some?
  }

  lemma ContainsIff(s: string, sub: string)
    ensures Contains(s, sub) <==> exists j :: OccursAt(s, sub, j)
  {
    IndexOfFirst(s, sub);
    IndexOfNone(s, sub);
    if Contains(s, sub) {
      assert OccursAt(s, sub, IndexOf(s, sub).value);
    }
  }

  /** Python's `s.split(sep)` for a non-empty separator: the pieces between
      the non-overlapping occurrences of `sep`, found left to right. */
  function Split(s: string, sep: string): (parts: seq<string>)
    requires |sep| > 0
    ensures |parts| >= 1
    decreases |s|
  {
    match IndexOf(s, sep)
    case None => [s]
    case Some(i) => [s[..i]] + Split(s[i + |sep|..], sep)
  }

  /** The text before the first occurrence of `sep` does not contain it. */
  lemma HeadBeforeFirstIsFree(s: string, sep: string, i: nat)
    requires |sep| > 0 && IndexOf(s, sep) == Some(i)
    ensures !Contains(s[..i], sep)
  {
    var head := s[..i];
    if Contains(head, sep) {
      IndexOfFirst(s, sep);
      IndexOfFirst(head, sep);
      var j := IndexOf(head, sep).value;
      assert OccursAt(head, sep, j);
      assert head[j..j + |sep|] == s[j..j + |sep|];
      assert OccursAt(s, sep, j);
      assert false;
    }
  }

  /** No piece of a split contains the separator. */
  lemma {:induction false} SplitPieceFree(s: string, sep: string, k: nat)
    requires |sep| > 0 && k < |Split(s, sep)|
    ensures !Contains(Split(s, sep)[k], sep)
    decreases |s|
  {
    match IndexOf(s, sep)
    case None =>
    case Some(i) =>
      if k == 0 {
        HeadBeforeFirstIsFree(s, sep, i);
      } else {
        SplitPieceFree(s[i + |sep|..], sep, k - 1);
      }
  }

  /** Python's `sep.join(parts)`. */
  function Join(sep: string, parts: seq<string>): (r: string)
    decreases |parts|
  {
    if |parts| == 0 then ""
    else if |parts| == 1 then parts[0]
    else parts[0] + sep + Join(sep, parts[1..])
  }

  /** Joining the pieces of a split with the same separator gives the
      original string back. */
  lemma {:induction false} JoinSplit(s: string, sep: string)
    requires |sep| > 0
    ensures Join(sep, Split(s, sep)) == s
    decreases |s|
  {
    match IndexOf(s, sep)
    case None =>
    case Some(i) =>
      var rest := s[i + |sep|..];
      JoinSplit(rest, sep);
      IndexOfFirst(s, sep);
      JoinCons(sep, s[..i], Split(rest, sep));
      SliceAround(s, i, |sep|);
  }

  lemma JoinCons(sep: string, head: string, tail: seq<string>)
    requires |tail| >= 1
    ensures Join(sep, [head] + tail) == head + sep + Join(sep, tail)
  {
    assert ([head] + tail)[1..] == tail;
  }

  /** Putting `w` in front of a join puts it in front of the first part. */
  lemma JoinPrefixHead(sep: string, w: string, parts: seq<string>)
    requires |parts| >= 1
    ensures Join(sep, [w + parts[0]] + parts[1..]) == w + Join(sep, parts)
  {
    if |parts| > 1 {
      var rest := Join(sep, parts[1..]);
      JoinCons(sep, w + parts[0], parts[1..]);
      assert w + parts[0] + sep + rest == w + (parts[0] + sep + rest);
    } else {
      assert [w + parts[0]] + parts[1..] == [w + parts[0]];
    }
  }

  lemma SliceAround(s: string, i: nat, n: nat)
    requires i + n <= |s|
    ensures s == s[..i] + s[i..i + n] + s[i + n..]
  {
  }

  /** Python's `s.replace(pattern, replacement)` for a non-empty `pattern`: every
      non-overlapping occurrence, scanning left to right, is replaced. */
  function Replace(s: string, pattern: string, replacement: string): string
    requires |pattern| > 0
  {
    Join(replacement, Split(s, pattern))
  }

  /** Replacing a pattern that does not occur changes nothing. */
  lemma ReplaceAbsent(s: string, pattern: string, replacement: string)
    requires |pattern| > 0 && !Contains(s, pattern)
    ensures Replace(s, pattern, replacement) == s
  {
  }

  /** `s` begins with `prefix`. */
  predicate StartsWith(s: string, prefix: string) {
    |prefix| <= |s| && s[..|prefix|] == prefix
  }

  /** `replace` read left to right: an occurrence at the front is
      replaced and the scan resumes after it ... */
  lemma ReplaceFront(s: string, pattern: string, replacement: string)
    requires |pattern| > 0 && StartsWith(s, pattern)
    ensures Replace(s, pattern, replacement) == replacement + Replace(s[|pattern|..], pattern, replacement)
  {
    assert IndexOf(s, pattern) == Some(0);
    JoinCons(replacement, "", Split(s[|pattern|..], pattern));
  }

  /** ... and any other first character is kept. */
  /** A text appended after a first character that starts no match
      leaves that character in front of the rewritten rest. */
  lemma KeepThenAppend(p: string, pattern: string, replacement: string, tail: string, out: string)
    requires |pattern| > 0 && p != [] && !StartsWith(p, pattern) && !StartsWith(p + tail, pattern)
    requires Replace(p[1..] + tail, pattern, replacement) == Replace(p[1..], pattern, replacement) + out
    ensures Replace(p + tail, pattern, replacement) == Replace(p, pattern, replacement) + out
  {
    var s := p + tail;
    assert s[1..] == p[1..] + tail;
    ReplaceKeep(s, pattern, replacement);
    ReplaceKeep(p, pattern, replacement);
    var r := Replace(p[1..], pattern, replacement);
    assert [p[0]] + (r + out) == ([p[0]] + r) + out;
  }

  lemma ReplaceKeep(s: string, pattern: string, replacement: string)
    requires |pattern| > 0 && s != [] && !StartsWith(s, pattern)
    ensures Replace(s, pattern, replacement) == [s[0]] + Replace(s[1..], pattern, replacement)
  {
    match IndexOf(s[1..], pattern)
    case None =>
      assert Split(s, pattern) == [s];
      assert [s[0]] + s[1..] == s;
    case Some(i) =>
      var rest := Split(s[i + 1 + |pattern|..], pattern);
      assert s[1..][i + |pattern|..] == s[i + 1 + |pattern|..];
      assert Split(s[1..], pattern) == [s[1..][..i]] + rest;
      assert Split(s, pattern) == [s[..i + 1]] + rest;
      JoinCons(replacement, s[1..][..i], rest);
      JoinCons(replacement, s[..i + 1], rest);
      assert s[..i + 1] == [s[0]] + s[1..][..i];
  }

  lemma NoStraddle(a: string, b: string, pattern: string)
    requires a != [] && !StartsWith(a, pattern)
    requires b == [] || b[0] !in pattern
    ensures !StartsWith(a + b, pattern)
  {
    if |a| >= |pattern| {
      assert (a + b)[..|pattern|] == a[..|pattern|];
    } else if |a| < |pattern| <= |a + b| {
      assert (a + b)[..|pattern|][|a|] == b[0];
    }
  }

  /** When no occurrence of the pattern can straddle the seam (the second
      part starts with a character the pattern does not hold), replacing
      in a concatenation replaces in each part. */
  lemma {:induction false} ReplaceConcat(a: string, b: string, pattern: string, replacement: string)
    requires |pattern| > 0
    requires b == [] || b[0] !in pattern
    ensures Replace(a + b, pattern, replacement)
            == Replace(a, pattern, replacement) + Replace(b, pattern, replacement)
    decreases |a|, 1
  {
    if a == [] {
      assert a + b == b;
    } else if StartsWith(a, pattern) {
      ReplaceConcatFront(a, b, pattern, replacement);
    } else {
      ReplaceConcatKeep(a, b, pattern, replacement);
    }
  }

  lemma {:induction false} ReplaceConcatFront(a: string, b: string, pattern: string, replacement: string)
    requires |pattern| > 0 && StartsWith(a, pattern)
    requires b == [] || b[0] !in pattern
    ensures Replace(a + b, pattern, replacement)
            == Replace(a, pattern, replacement) + Replace(b, pattern, replacement)
    decreases |a|, 0
  {
    var ab := a + b;
    var a' := a[|pattern|..];
    assert StartsWith(ab, pattern) by {
      assert ab[..|pattern|] == a[..|pattern|];
    }
    assert ab[|pattern|..] == a' + b;
    ReplaceFront(a, pattern, replacement);
    ReplaceFront(ab, pattern, replacement);
    ReplaceConcat(a', b, pattern, replacement);
  }

  lemma {:induction false} ReplaceConcatKeep(a: string, b: string, pattern: string, replacement: string)
    requires |pattern| > 0 && a != [] && !StartsWith(a, pattern)
    requires b == [] || b[0] !in pattern
    ensures Replace(a + b, pattern, replacement)
            == Replace(a, pattern, replacement) + Replace(b, pattern, replacement)
    decreases |a|, 0
  {
    var ab := a + b;
    NoStraddle(a, b, pattern);
    assert ab[1..] == a[1..] + b;
    ReplaceKeep(a, pattern, replacement);
    ReplaceKeep(ab, pattern, replacement);
    ReplaceConcat(a[1..], b, pattern, replacement);
  }

  /** A string lacking one of a pattern's characters does not contain
      the pattern. */
  lemma NoCharOf(s: string, pattern: string, c: char)
    requires c in pattern && c !in s
    ensures !Contains(s, pattern)
  {
    ContainsIff(s, pattern);
    var k :| 0 <= k < |pattern| && pattern[k] == c;
    forall j | 0 <= j && j + |pattern| <= |s|
      ensures !OccursAt(s, pattern, j)
    {
      assert s[j..j + |pattern|][k] == s[j + k];
    }
  }

  /** A pattern holding `c` twice in a row does not occur in a string
      whose only `c` is its last character. */
  lemma NoDoubleChar(x: string, c: char, pattern: string, k: nat)
    requires c !in x && k + 1 < |pattern| && pattern[k] == c && pattern[k + 1] == c
    ensures !Contains(x + [c], pattern)
  {
    var s := x + [c];
    ContainsIff(s, pattern);
    forall j | 0 <= j && j + |pattern| <= |s|
      ensures !OccursAt(s, pattern, j)
    {
      assert s[j..j + |pattern|][k] == s[j + k];
      assert s[j + k] == x[j + k];
    }
  }

  /** The pieces of `s` after the last occurrence of `sep`
      (Python `s.split(sep)[-1]`). */
  function LastPiece(s: string, sep: string): (r: string)
    requires |sep| > 0
    ensures !Contains(r, sep)
  {
    var parts := Split(s, sep);
    SplitPieceFree(s, sep, |parts| - 1);
    parts[|parts| - 1]
  }

  /** ASCII stand-in for `str.isspace`. */
  predicate IsSpace(c: char) {
    c == ' ' || ('\U{0009}' <= c <= '\U{000D}') || ('\U{001C}' <= c <= '\U{001F}')
  }

  function StripLeft(s: string): string
    decreases |s|
  {
    if s != [] && IsSpace(s[0]) then StripLeft(s[1..]) else s
  }

  function StripRight(s: string): string
    decreases |s|
  {
    if s != [] && IsSpace(s[|s| - 1]) then StripRight(s[..|s| - 1]) else s
  }

  /** Python's `s.strip()`. */
  function Strip(s: string): string {
    StripRight(StripLeft(s))
  }

  /** `lstrip` removes exactly the leading whitespace. */
  lemma {:induction false} StripLeftShape(s: string)
    ensures var r := StripLeft(s);
            |r| <= |s| && r == s[|s| - |r|..]
            && (r != [] ==> !IsSpace(r[0]))
            && forall i :: 0 <= i < |s| - |r| ==> IsSpace(s[i])
    decreases |s|
  {
    if s != [] && IsSpace(s[0]) {
      StripLeftShape(s[1..]);
    }
  }

  /** `rstrip` removes exactly the trailing whitespace. */
  lemma {:induction false} StripRightShape(s: string)
    ensures var r := StripRight(s);
            |r| <= |s| && r == s[..|r|]
            && (r != [] ==> !IsSpace(r[|r| - 1]))
            && forall i :: |r| <= i < |s| ==> IsSpace(s[i])
    decreases |s|
  {
    if s != [] && IsSpace(s[|s| - 1]) {
      StripRightShape(s[..|s| - 1]);
    }
  }

  /** `strip` keeps a middle slice with no whitespace at either end and
      only whitespace around it. */
  lemma StripShape(s: string)
    ensures var r := Strip(s);
            exists i :: OccursAt(s, r, i)
              && (forall j :: 0 <= j < i ==> IsSpace(s[j]))
              && (forall j :: i + |r| <= j < |s| ==> IsSpace(s[j]))
    ensures var r := Strip(s); r != [] ==> !IsSpace(r[0]) && !IsSpace(r[|r| - 1])
  {
    var l := StripLeft(s);
    StripLeftShape(s);
    StripRightShape(l);
    var r := StripRight(l);
    assert r == Strip(s);
    var i := |s| - |l|;
    assert s[i..i + |r|] == r;
    assert forall j :: i + |r| <= j < |s| ==> s[j] == l[j - i];
    assert OccursAt(s, r, i)
      && (forall j :: 0 <= j < i ==> IsSpace(s[j]))
      && (forall j :: i + |r| <= j < |s| ==> IsSpace(s[j]));
  }

  function LowerChar(c: char): char {
    if 'A' <= c <= 'Z' then (c as int - 'A' as int + 'a' as int) as char else c
  }

  /** ASCII stand-in for `str.lower()`. */
  function Lower(s: string): string {
    seq(|s|, i requires 0 <= i < |s| => LowerChar(s[i]))
  }

  /** Python's `c in s` for a single character. */
  lemma ContainsChar(s: string, c: char)
    ensures Contains(s, [c]) <==> c in s
  {
    ContainsIff(s, [c]);
    if c in s {
      var j :| 0 <= j < |s| && s[j] == c;
      assert s[j..j + 1] == [c];
      assert OccursAt(s, [c], j);
    }
    forall j | OccursAt(s, [c], j)
      ensures s[j] == c
    {
      assert s[j] == s[j..j + 1][0];
    }
  }

  /** `s` with every `c` deleted. */
  function RemoveChar(s: string, c: char): string
    decreases |s|
  {
    if s == [] then [] else (if s[0] == c then [] else [s[0]]) + RemoveChar(s[1..], c)
  }

  /** Deleting `c` leaves no `c` and keeps every other character. */
  lemma {:induction false} RemoveCharMembers(s: string, c: char, d: char)
    ensures d in RemoveChar(s, c) <==> d != c && d in s
    decreases |s|
  {
    if s != [] {
      RemoveCharMembers(s[1..], c, d);
      assert d in s <==> d == s[0] || d in s[1..];
    }
  }

  lemma {:induction false} RemoveCharAppend(a: string, b: string, c: char)
    ensures RemoveChar(a + b, c) == RemoveChar(a, c) + RemoveChar(b, c)
    decreases |a|
  {
    if a == [] {
      assert a + b == b;
    } else {
      RemoveCharAppend(a[1..], b, c);
      assert (a + b)[1..] == a[1..] + b;
      var x := if a[0] == c then [] else [a[0]];
      assert RemoveChar(a + b, c) == x + (RemoveChar(a[1..], c) + RemoveChar(b, c));
      assert x + (RemoveChar(a[1..], c) + RemoveChar(b, c)) == (x + RemoveChar(a[1..], c)) + RemoveChar(b, c);
    }
  }

  lemma {:induction false} RemoveCharAbsent(s: string, c: char)
    requires c !in s
    ensures RemoveChar(s, c) == s
    decreases |s|
  {
    if s != [] {
      RemoveCharAbsent(s[1..], c);
    }
  }

  /** `s.replace(c, '')` for a one-character pattern deletes every `c`. */
  lemma {:induction false} ReplaceDeletes(s: string, c: char)
    ensures Replace(s, [c], "") == RemoveChar(s, c)
    decreases |s|
  {
    match IndexOf(s, [c])
    case None =>
      ContainsChar(s, c);
      RemoveCharAbsent(s, c);
    case Some(i) =>
      var head, rest := s[..i], s[i + 1..];
      assert Replace(s, [c], "") == head + Replace(rest, [c], "") by {
        JoinCons("", head, Split(rest, [c]));
      }
      RemoveCharAtFirst(s, c, i);
      ReplaceDeletes(rest, c);
  }

  /** Deleting `c` from a string whose first `c` is at `i` keeps the text
      before it and deletes from the text after it. */
  lemma RemoveCharAtFirst(s: string, c: char, i: nat)
    requires IndexOf(s, [c]) == Some(i)
    ensures RemoveChar(s, c) == s[..i] + RemoveChar(s[i + 1..], c)
  {
    var head, rest := s[..i], s[i + 1..];
    assert c !in head by {
      HeadBeforeFirstIsFree(s, [c], i);
      ContainsChar(head, c);
    }
    assert s == head + [c] + rest by {
      IndexOfFirst(s, [c]);
      assert s[i] == s[i..i + 1][0] == c;
    }
    calc {
      RemoveChar(s, c);
      { RemoveCharAppend(head + [c], rest, c); }
      RemoveChar(head + [c], c) + RemoveChar(rest, c);
      { RemoveCharAppend(head, [c], c); }
      RemoveChar(head, c) + RemoveChar([c], c) + RemoveChar(rest, c);
      { RemoveCharAbsent(head, c); RemoveCharOne(c); }
      head + [] + RemoveChar(rest, c);
      { assert head + [] == head; }
      head + RemoveChar(rest, c);
    }
  }

  lemma RemoveCharOne(c: char)
    ensures RemoveChar([c], c) == []
  {
    assert [c][1..] == [];
  }

  /** The last piece of a split is a suffix of the string. */
  lemma LastPieceSuffix(s: string, sep: string)
    requires |sep| > 0
    ensures IsSuffix(LastPiece(s, sep), s)
  {
    JoinSplit(s, sep);
    JoinEndsWithLast(sep, Split(s, sep));
  }

  /** A join ends with its last part. */
  lemma {:induction false} JoinEndsWithLast(sep: string, parts: seq<string>)
    requires |parts| >= 1
    ensures IsSuffix(parts[|parts| - 1], Join(sep, parts))
    decreases |parts|
  {
    if |parts| > 1 {
      var tail := parts[1..];
      var rest := Join(sep, tail);
      JoinEndsWithLast(sep, tail);
      var k := |parts[0] + sep|;
      assert (parts[0] + sep + rest)[k..] == rest;
      SuffixOfRest(parts[0] + sep + rest, k, tail[|tail| - 1]);
    }
  }

  /** A suffix of a suffix is a suffix. */
  lemma SuffixOfRest(s: string, k: nat, t: string)
    requires k <= |s| && IsSuffix(t, s[k..])
    ensures IsSuffix(t, s)
  {
    assert s[|s| - |t|..] == s[k..][|s| - k - |t|..];
  }

  /** `s` ends with `suffix`. */
  predicate IsSuffix(suffix: string, s: string) {
    |suffix| <= |s| && s[|s| - |suffix|..] == suffix
  }
}
