/** The column-rename pass at the end of `to_pyarrow`: a column whose name
    holds `=...]` (the predicate of an XPath step such as
    `ID[@wd:type='Employee_ID']`) is renamed to the text between the `=`
    and the `]`, quotes removed; otherwise a column whose name holds `/wd:`
    is renamed to the last path step; any other column keeps its name. */
module Columns {
  import opened Results
  import opened PyStr

  // ---------------------------------------------------------------------
  // `re.search(r"=(.*?)\]", col)`
  // ---------------------------------------------------------------------

  /** A `]` at `r` closes a group opened just before `q`: no `]` comes
      earlier (the group is lazy) and no newline comes earlier (`.` does
      not match one). */
  predicate ClosesAt(col: string, q: int, r: int) {
    0 <= q <= r < |col| && col[r] == ']'
    && forall k :: q <= k < r ==> col[k] != ']' && col[k] != '\n'
  }

  /** The pattern matches with its `=` at `p` and its `]` at `r`. */
  predicate MatchesAt(col: string, p: int, r: int) {
    0 <= p < |col| && col[p] == '=' && ClosesAt(col, p + 1, r)
  }

  /** The lazy scan for the closing `]`. */
  function CloseFrom(col: string, q: nat): (r: Option<nat>)
    ensures r.Some? ==> q <= r.value < |col|
    decreases |col| - q
  {
    if q >= |col| then None
    else if col[q] == ']' then Some(q)
    else if col[q] == '\n' then None
    else CloseFrom(col, q + 1)
  }

  /** The search: the leftmost `=` from which a closing `]` is reached. */
  function MatchFrom(col: string, p: nat): (m: Option<(nat, nat)>)
    ensures m.Some? ==> p <= m.value.0 < m.value.1 < |col|
    decreases |col| - p
  {
    if p >= |col| then None
    else if col[p] == '=' && CloseFrom(col, p + 1).Some? then Some((p, CloseFrom(col, p + 1).value))
    else MatchFrom(col, p + 1)
  }

  /** `match.group(1)` when the search succeeds. */
  function RegexCapture(col: string): Option<string> {
    match MatchFrom(col, 0)
    case None => None
    case Some((p, r)) => Some(col[p + 1..r])
  }

  lemma {:induction false} CloseFromSpec(col: string, q: nat)
    ensures CloseFrom(col, q).Some? ==> ClosesAt(col, q, CloseFrom(col, q).value)
    ensures CloseFrom(col, q).None? ==> forall r :: !ClosesAt(col, q, r)
    decreases |col| - q
  {
    if q < |col| && col[q] != ']' && col[q] != '\n' {
      CloseFromSpec(col, q + 1);
      forall r | ClosesAt(col, q, r)
        ensures ClosesAt(col, q + 1, r)
      {
      }
    }
  }

  lemma {:induction false} MatchFromSpec(col: string, p0: nat)
    ensures MatchFrom(col, p0).Some? ==>
              var (p, r) := MatchFrom(col, p0).value;
              MatchesAt(col, p, r) && forall p', r' :: p0 <= p' < p ==> !MatchesAt(col, p', r')
    ensures MatchFrom(col, p0).None? ==> forall p, r :: p0 <= p ==> !MatchesAt(col, p, r)
    decreases |col| - p0
  {
    if p0 < |col| {
      CloseFromSpec(col, p0 + 1);
      if !(col[p0] == '=' && CloseFrom(col, p0 + 1).Some?) {
        MatchFromSpec(col, p0 + 1);
      }
    }
  }

  /** The search succeeds exactly when the pattern matches somewhere; it
      then captures the text of the leftmost match, which holds neither a
      `]` nor a newline. */
  lemma CaptureSpec(col: string)
    ensures RegexCapture(col).None? <==> forall p, r :: !MatchesAt(col, p, r)
    ensures RegexCapture(col).Some? ==>
              exists p, r :: MatchesAt(col, p, r) && RegexCapture(col).value == col[p + 1..r]
                             && forall p', r' :: MatchesAt(col, p', r') ==> p <= p'
    ensures RegexCapture(col).Some? ==> ']' !in RegexCapture(col).value && '\n' !in RegexCapture(col).value
  {
    MatchFromSpec(col, 0);
    if MatchFrom(col, 0).Some? {
      var (p, r) := MatchFrom(col, 0).value;
      assert MatchesAt(col, p, r);
      var c := col[p + 1..r];
      forall k | 0 <= k < |c|
        ensures c[k] != ']' && c[k] != '\n'
      {
        assert c[k] == col[p + 1 + k];
      }
    }
  }

  /** A name without `]` never matches. */
  lemma NoBracketNoCapture(col: string)
    requires ']' !in col
    ensures RegexCapture(col).None?
  {
    CaptureSpec(col);
    forall p, r
      ensures !MatchesAt(col, p, r)
    {
      if 0 <= r < |col| {
        assert col[r] in col;
      }
    }
  }

  /** A suffix of a name that does not match does not match either. */
  lemma SuffixNoCapture(col: string, t: string)
    requires RegexCapture(col).None? && IsSuffix(t, col)
    ensures RegexCapture(t).None?
  {
    CaptureSpec(col);
    CaptureSpec(t);
    var off := |col| - |t|;
    forall p, r | MatchesAt(t, p, r)
      ensures MatchesAt(col, p + off, r + off)
    {
      assert forall k :: 0 <= k < |t| ==> t[k] == col[k + off];
    }
  }

  // ---------------------------------------------------------------------
  // The rename
  // ---------------------------------------------------------------------

  /** The separator of Workday path steps in a prepared tag. */
  const WdSep: string := "/wd:"

  /** The entry `col_rename` gets for a column, if any. */
  function Rename(col: string): Option<string> {
    match RegexCapture(col)
    case Some(c) => Some(Replace(c, "'", ""))
    case None => if Contains(col, WdSep) then Some(LastPiece(col, WdSep)) else None
  }

  /** `col_rename.get(name, name)`. */
  function RenamedColumn(col: string): string {
    match Rename(col)
    case Some(n) => n
    case None => col
  }

  /** The first loop of the rename pass: `col_rename` gets an entry for
      every column name that has one, and only such entries. */
  method BuildRenameMap(columns: seq<string>) returns (colRename: map<string, string>)
    ensures forall c :: c in colRename ==> Rename(c) == Some(colRename[c])
    ensures forall j :: 0 <= j < |columns| && Rename(columns[j]).Some? ==> columns[j] in colRename
  {
    colRename := map[];
    for i := 0 to |columns|
      invariant forall c :: c in colRename ==> Rename(c) == Some(colRename[c])
      invariant forall j :: 0 <= j < i && Rename(columns[j]).Some? ==> columns[j] in colRename
    {
      var col := columns[i];
      match Rename(col)
      case Some(newName) =>
        colRename := colRename[col := newName];
      case None =>
    }
  }

  /** The rename pass: fill `col_rename`, then look every name up in it. */
  method RenameColumns(columns: seq<string>) returns (newColumns: seq<string>)
    ensures |newColumns| == |columns|
    ensures forall i :: 0 <= i < |columns| ==> newColumns[i] == RenamedColumn(columns[i])
  {
    var colRename := BuildRenameMap(columns);
    newColumns := [];
    for i := 0 to |columns|
      invariant |newColumns| == i
      invariant forall j :: 0 <= j < i ==> newColumns[j] == RenamedColumn(columns[j])
    {
      var name := columns[i];
      newColumns := newColumns + [if name in colRename then colRename[name] else name];
    }
  }

  /** A captured name is the captured text with every quote deleted: it
      holds no quote and no `]`. */
  lemma RenameCaptured(col: string)
    requires RegexCapture(col).Some?
    ensures RenamedColumn(col) == RemoveChar(RegexCapture(col).value, '\'')
    ensures '\'' !in RenamedColumn(col) && ']' !in RenamedColumn(col)
  {
    var c := RegexCapture(col).value;
    CaptureSpec(col);
    assert "'" == ['\''];
    ReplaceDeletes(c, '\'');
    RemoveCharMembers(c, '\'', '\'');
    RemoveCharMembers(c, '\'', ']');
  }

  /** Otherwise a `/wd:` path is renamed to its last step, which holds no
      `/wd:` and ends the original name. */
  lemma RenamePath(col: string)
    requires RegexCapture(col).None? && Contains(col, WdSep)
    ensures RenamedColumn(col) == LastPiece(col, WdSep)
    ensures !Contains(RenamedColumn(col), WdSep) && IsSuffix(RenamedColumn(col), col)
  {
    LastPieceSuffix(col, WdSep);
  }

  /** Any other name is kept. */
  lemma RenameKeeps(col: string)
    requires RegexCapture(col).None? && !Contains(col, WdSep)
    ensures RenamedColumn(col) == col
  {
  }

  /** Renaming twice is renaming once whenever the new name holds no
      `/wd:` (always so unless a captured predicate value holds one). */
  lemma RenameIdempotent(col: string)
    requires !Contains(RenamedColumn(col), WdSep)
    ensures RenamedColumn(RenamedColumn(col)) == RenamedColumn(col)
  {
    var n := RenamedColumn(col);
    match RegexCapture(col)
    case Some(c) =>
      RenameCaptured(col);
      NoBracketNoCapture(n);
    case None =>
      if Contains(col, WdSep) {
        RenamePath(col);
        SuffixNoCapture(col, n);
      }
  }

  /** The pass is not idempotent in general: a captured predicate value
      that itself holds `/wd:` is renamed again on a second pass. */
  lemma RenameNotIdempotent()
    ensures RenamedColumn("x=a/wd:b]") == "a/wd:b"
    ensures RenamedColumn("a/wd:b") == "b"
  {
    FirstPassExample();
    SecondPassExample();
  }

  lemma FirstPassExample()
    ensures RenamedColumn("x=a/wd:b]") == "a/wd:b"
  {
    CaptureExample();
    CapturedUnquoted("x=a/wd:b]", "a/wd:b");
  }

  /** A capture without quotes is the new name as it stands. */
  lemma CapturedUnquoted(col: string, c: string)
    requires RegexCapture(col) == Some(c) && '\'' !in c
    ensures RenamedColumn(col) == c
  {
    RenameCaptured(col);
    RemoveCharAbsent(c, '\'');
  }

  lemma SecondPassExample()
    ensures RenamedColumn("a/wd:b") == "b"
  {
    NoBracketNoCapture("a/wd:b");
    LastStepExample();
  }

  lemma CaptureExample()
    ensures RegexCapture("x=a/wd:b]") == Some("a/wd:b")
  {
    var col := "x=a/wd:b]";
    assert ClosesAt(col, 2, 8);
    assert MatchesAt(col, 1, 8);
    CaptureSpec(col);
    var p, r :| MatchesAt(col, p, r) && RegexCapture(col).value == col[p + 1..r]
                && forall p', r' :: MatchesAt(col, p', r') ==> p <= p';
    assert p <= 1 && col[p] == '=';
    assert p == 1;
    assert col[r] == ']';
    assert r == 8;
    assert col[2..8] == "a/wd:b";
  }

  lemma LastStepExample()
    ensures Contains("a/wd:b", WdSep) && LastPiece("a/wd:b", WdSep) == "b"
  {
    var n := "a/wd:b";
    assert n[..4][0] == 'a';
    assert n[1..][..4] == WdSep;
    assert IndexOf(n[1..], WdSep) == Some(0);
    assert IndexOf(n, WdSep) == Some(1);
    assert n[..1] == "a";
    assert n[5..] == "b";
    assert IndexOf("b", WdSep) == None;
    assert Split("b", WdSep) == ["b"];
    assert Split(n, WdSep) == ["a", "b"];
  }
}
