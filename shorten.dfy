/** `_shorten_column_name`: cut a generated column name down to a maximum
    length, keeping a suffix and preferring to start right after an
    underscore. */
module Shorten {
  import opened PyStr

  /** `s.find(c, start)`: the first index at or after `start` holding `c`,
      or -1. */
  function FindFrom(s: string, c: char, start: nat): (r: int)
    ensures r == -1 || (start <= r < |s| && s[r] == c)
    decreases |s| - start
  {
    if start >= |s| then -1
    else if s[start] == c then start
    else FindFrom(s, c, start + 1)
  }

  /** `find` returns the FIRST match, and -1 only when there is none. */
  lemma {:induction false} FindFromFirst(s: string, c: char, start: nat)
    ensures FindFrom(s, c, start) == -1 <==> forall i :: start <= i < |s| ==> s[i] != c
    ensures forall i :: start <= i < FindFrom(s, c, start) ==> s[i] != c
    decreases |s| - start
  {
    if start < |s| && s[start] != c {
      FindFromFirst(s, c, start + 1);
    }
  }

  /** `s.rfind(c, 0, end)`: the last index before `end` holding `c`, or -1. */
  function RFindBefore(s: string, c: char, end: nat): (r: int)
    requires end <= |s|
    ensures r == -1 || (0 <= r < end && s[r] == c)
  {
    if end == 0 then -1
    else if s[end - 1] == c then end - 1
    else RFindBefore(s, c, end - 1)
  }

  /** `rfind` returns the LAST match before `end`, and -1 only when there
      is none. */
  lemma {:induction false} RFindBeforeLast(s: string, c: char, end: nat)
    requires end <= |s|
    ensures RFindBefore(s, c, end) == -1 <==> forall i :: 0 <= i < end ==> s[i] != c
    ensures forall i :: RFindBefore(s, c, end) < i < end ==> s[i] != c
  {
    if end > 0 && s[end - 1] != c {
      RFindBeforeLast(s, c, end - 1);
    }
  }

  /** Python's `s[-n:]` for `n <= |s|`; note that `s[-0:]` is all of `s`. */
  function PyTail(s: string, n: nat): string
    requires n <= |s|
  {
    if n == 0 then s else s[|s| - n..]
  }

  /** The column-name shortener, branch for branch. */
  function ShortenColumnName(col: string, maxLength: nat): string
  {
    if |col| <= maxLength then col
    else
      var startIndex := |col| - maxLength;
      var nextSep := FindFrom(col, '_', startIndex);
      if nextSep != -1 && |col| - nextSep - 1 <= maxLength then col[nextSep + 1..]
      else
        var prevSep := RFindBefore(col, '_', startIndex);
        if prevSep != -1 && |col| - prevSep - 1 <= maxLength then col[prevSep + 1..]
        else PyTail(col, maxLength)
  }

  /** A name within the limit is returned unchanged. */
  lemma ShortenKeepsShort(col: string, maxLength: nat)
    requires |col| <= maxLength
    ensures ShortenColumnName(col, maxLength) == col
  {
  }

  /** The shortened name is always a suffix of the original. */
  lemma ShortenSuffix(col: string, maxLength: nat)
    ensures IsSuffix(ShortenColumnName(col, maxLength), col)
  {
  }

  /** With a positive limit the shortened name fits it. */
  lemma ShortenFits(col: string, maxLength: nat)
    requires maxLength > 0
    ensures |ShortenColumnName(col, maxLength)| <= maxLength
  {
  }

  /** Over the limit, the name is cut right after the first underscore
      that leaves at most `maxLength` characters. */
  lemma ShortenAtFirstSeparator(col: string, maxLength: nat, i: nat)
    requires maxLength < |col|
    requires |col| - maxLength <= i < |col| && col[i] == '_'
    requires forall j :: |col| - maxLength <= j < i ==> col[j] != '_'
    ensures ShortenColumnName(col, maxLength) == col[i + 1..]
  {
    FindFromFirst(col, '_', |col| - maxLength);
  }

  /** With no underscore among the last `maxLength` characters, they are
      what is kept (whether or not an underscore sits just before them). */
  lemma ShortenWithoutSeparator(col: string, maxLength: nat)
    requires 0 < maxLength < |col|
    requires forall j :: |col| - maxLength <= j < |col| ==> col[j] != '_'
    ensures ShortenColumnName(col, maxLength) == col[|col| - maxLength..]
  {
    var start := |col| - maxLength;
    FindFromFirst(col, '_', start);
    var prevSep := RFindBefore(col, '_', start);
    if prevSep != -1 && |col| - prevSep - 1 <= maxLength {
      assert prevSep == start - 1;
    }
  }

  /** Shortening is idempotent for any positive limit. */
  lemma ShortenIdempotent(col: string, maxLength: nat)
    requires maxLength > 0
    ensures ShortenColumnName(ShortenColumnName(col, maxLength), maxLength) == ShortenColumnName(col, maxLength)
  {
  }
}
