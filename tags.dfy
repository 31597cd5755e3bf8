/** The tag mini-language before any XML is touched: the slice of tags a
    nested group (`*`) works on, the `./wd:` prefixing `to_pyarrow` applies
    to every tag, and the expansion of `path%term?=kind%end` wildcards into
    XPath 1.0 expressions. */
module Tags {
  import opened Results
  import opened PyStr

  // ---------------------------------------------------------------------
  // `_next_tags`
  // ---------------------------------------------------------------------

  /** The tags following the first occurrence of `t`; none when `t` does
      not occur. */
  function After(tags: seq<string>, t: string): seq<string>
    decreases |tags|
  {
    if tags == [] then []
    else if tags[0] == t then tags[1..]
    else After(tags[1..], t)
  }

  /** `_next_tags`: a single pass with an `activated` flag that is raised
      at the first tag equal to `currTag` and copies every later tag. */
  method NextTags(tags: seq<string>, currTag: string) returns (tmpTags: seq<string>)
    ensures tmpTags == After(tags, currTag)
  {
    var activated := false;
    tmpTags := [];
    for k := 0 to |tags|
      invariant activated <==> currTag in tags[..k]
      invariant !activated ==> tmpTags == []
      invariant tmpTags == After(tags[..k], currTag)
    {
      assert tags[..k + 1] == tags[..k] + [tags[k]];
      AfterSnoc(tags[..k], tags[k], currTag);
      if activated {
        tmpTags := tmpTags + [tags[k]];
      }
      if tags[k] == currTag && !activated {
        activated := true;
      }
    }
    assert tags[..|tags|] == tags;
  }

  /** Appending one tag: once `t` has been seen every later tag is kept. */
  lemma {:induction false} AfterSnoc(p: seq<string>, x: string, t: string)
    ensures After(p + [x], t) == if t in p then After(p, t) + [x] else []
    decreases |p|
  {
    if p == [] {
      assert [x][1..] == [];
    } else {
      assert (p + [x])[1..] == p[1..] + [x];
      if p[0] != t {
        AfterSnoc(p[1..], x, t);
        assert t in p <==> t in p[1..];
      }
    }
  }

  /** The result is exactly what follows the FIRST occurrence of `t`. */
  lemma {:induction false} AfterFirst(tags: seq<string>, t: string, i: nat)
    requires i < |tags| && tags[i] == t
    requires forall j :: 0 <= j < i ==> tags[j] != t
    ensures After(tags, t) == tags[i + 1..]
    decreases i
  {
    if i > 0 {
      AfterFirst(tags[1..], t, i - 1);
    }
  }

  /** A tag that does not occur selects nothing. */
  lemma {:induction false} AfterAbsent(tags: seq<string>, t: string)
    requires t !in tags
    ensures After(tags, t) == []
    decreases |tags|
  {
    if tags != [] {
      AfterAbsent(tags[1..], t);
    }
  }

  /** For a tag taken from the list the slice is a proper suffix: it is
      strictly shorter, which is what bounds the `*` recursion. */
  lemma {:induction false} AfterShorter(tags: seq<string>, t: string)
    requires t in tags
    ensures |After(tags, t)| < |tags|
    ensures After(tags, t) == tags[|tags| - |After(tags, t)|..]
    decreases |tags|
  {
    if tags[0] != t {
      AfterShorter(tags[1..], t);
    }
  }

  // ---------------------------------------------------------------------
  // Tag prefixing in `to_pyarrow`
  // ---------------------------------------------------------------------

  /** The step prefix every tag path is given. */
  const WdStep: string := "./wd:"

  /** `'./wd:' + tag.replace('>>', '/wd:')`, then `.replace('||', '||./wd:')`:
      `>>` separates path steps and `||` separates alternatives, and each
      step and each alternative is put in the Workday namespace. */
  function PrepareTag(tag: string): string {
    Replace(WdStep + PathSteps(tag), "||", "||./wd:")
  }

  /** `>>` steps written as XPath child steps in the Workday namespace. */
  function PathSteps(tag: string): string {
    Replace(tag, ">>", "/wd:")
  }

  /** The prefix holds no `|`, so no `||` occurrence can start inside it. */
  lemma WdStepNoBar(s: string, j: nat)
    requires OccursAt(WdStep + s, "||", j)
    ensures j >= |WdStep| && OccursAt(s, "||", j - |WdStep|)
  {
    var w := WdStep + s;
    assert w[j] == w[j..j + 2][0] == '|';
    assert w[j..j + 2] == s[j - |WdStep|..j - |WdStep| + 2];
  }

  /** A tag using neither `>>` nor `||` is only prefixed. */
  lemma PrepareTagPlain(tag: string)
    requires !Contains(tag, ">>") && !Contains(tag, "||")
    ensures PrepareTag(tag) == WdStep + tag
  {
    ReplaceAbsent(tag, ">>", "/wd:");
    var s := WdStep + tag;
    if Contains(s, "||") {
      ContainsIff(s, "||");
      var j :| OccursAt(s, "||", j);
      WdStepNoBar(tag, j);
      ContainsIff(tag, "||");
    }
    ReplaceAbsent(s, "||", "||./wd:");
  }

  /** Every prepared tag starts with `./wd:`. */
  lemma PrepareTagPrefix(tag: string)
    ensures |WdStep| <= |PrepareTag(tag)| && PrepareTag(tag)[..|WdStep|] == WdStep
  {
    var s := WdStep + Replace(tag, ">>", "/wd:");
    var parts := Split(s, "||");
    match IndexOf(s, "||")
    case None =>
      assert parts == [s];
    case Some(i) =>
      IndexOfFirst(s, "||");
      WdStepNoBar(Replace(tag, ">>", "/wd:"), i);
      assert parts[0] == s[..i];
      JoinCons("||./wd:", parts[0], parts[1..]);
      assert [parts[0]] + parts[1..] == parts;
  }

  /** The alternatives of a prepared tag are those of the tag, in order,
      each with its `>>` steps rewritten and its own `./wd:` prefix. */
  lemma PrepareTagPieces(tag: string)
    ensures |Split(PrepareTag(tag), "||")| == |Split(tag, "||")|
    ensures forall i :: 0 <= i < |Split(tag, "||")| ==>
              Split(PrepareTag(tag), "||")[i] == WdStep + PathSteps(Split(tag, "||")[i])
  {
    var pieces := Split(tag, "||");
    var prefixed := PrefixEach(PathStepsEach(pieces));
    PrepareTagJoin(tag);
    forall i | 0 <= i < |pieces|
      ensures !Contains(prefixed[i], "||")
      ensures i < |pieces| - 1 ==> !Contains(prefixed[i] + "|", "||")
    {
      PreparedPieceFree(tag, i);
    }
    SplitJoinBars(prefixed);
  }

  /** Each part with its `>>` steps rewritten. */
  function PathStepsEach(parts: seq<string>): (r: seq<string>)
    ensures |r| == |parts|
  {
    seq(|parts|, i requires 0 <= i < |parts| => PathSteps(parts[i]))
  }

  /** Each part with the `./wd:` prefix. */
  function PrefixEach(parts: seq<string>): (r: seq<string>)
    ensures |r| == |parts|
  {
    seq(|parts|, i requires 0 <= i < |parts| => WdStep + parts[i])
  }

  /** A prepared tag is the `||`-join of its alternatives, each rewritten
      and prefixed. */
  lemma PrepareTagJoin(tag: string)
    ensures PrepareTag(tag) == Join("||", PrefixEach(PathStepsEach(Split(tag, "||"))))
  {
    var pieces := Split(tag, "||");
    var steps := PathStepsEach(pieces);
    var first := [WdStep + steps[0]] + steps[1..];
    calc {
      PrepareTag(tag);
      Replace(WdStep + PathSteps(tag), "||", "||./wd:");
      { JoinSplit(tag, "||"); PathStepsJoin(pieces); }
      Replace(WdStep + Join("||", steps), "||", "||./wd:");
      { JoinPrefixHead("||", WdStep, steps); }
      Replace(Join("||", first), "||", "||./wd:");
      { PreparedPartsOpen(tag); SplitJoinBars(first); }
      Join("||./wd:", first);
      { JoinRetag(WdStep + steps[0], steps[1..]); }
      Join("||", [WdStep + steps[0]] + PrefixEach(steps[1..]));
      { assert [WdStep + steps[0]] + PrefixEach(steps[1..]) == PrefixEach(steps); }
      Join("||", PrefixEach(steps));
    }
  }

  /** The alternatives of a tag, rewritten and with the first one
      prefixed, meet what `SplitJoinBars` asks of the parts it joins. */
  lemma PreparedPartsOpen(tag: string)
    ensures var steps := PathStepsEach(Split(tag, "||"));
            var first := [WdStep + steps[0]] + steps[1..];
            && (forall i :: 0 <= i < |first| - 1 ==> !Contains(first[i] + "|", "||"))
            && !Contains(first[|first| - 1], "||")
  {
    var pieces := Split(tag, "||");
    var steps := PathStepsEach(pieces);
    var n := |pieces|;
    forall i | 0 <= i < n
      ensures !Contains(steps[i], "||") && !Contains(WdStep + steps[i], "||")
      ensures i < n - 1 ==> !Contains(steps[i] + "|", "||") && !Contains(WdStep + steps[i] + "|", "||")
    {
      PreparedPieceFree(tag, i);
    }
    PrefixFirstOpen(WdStep, steps, "||", "|");
  }

  /** Prefixing the first of some parts keeps them fit for `SplitJoinBars`
      when the prefixed first part is fit on its own. */
  lemma PrefixFirstOpen(w: string, steps: seq<string>, bar: string, half: string)
    requires |steps| >= 1
    requires forall i :: 0 <= i < |steps| - 1 ==> !Contains(steps[i] + half, bar)
    requires !Contains(steps[|steps| - 1], bar)
    requires |steps| > 1 ==> !Contains(w + steps[0] + half, bar)
    requires !Contains(w + steps[0], bar)
    ensures var first := [w + steps[0]] + steps[1..];
            && (forall i :: 0 <= i < |first| - 1 ==> !Contains(first[i] + half, bar))
            && !Contains(first[|first| - 1], bar)
  {
    var first := [w + steps[0]] + steps[1..];
    forall i | 0 <= i < |first| - 1
      ensures !Contains(first[i] + half, bar)
    {
      if i > 0 {
        assert first[i] == steps[i];
      }
    }
    if |steps| > 1 {
      assert first[|first| - 1] == steps[|steps| - 1];
    }
  }

  /** One alternative of a tag, once its steps are rewritten and it is
      prefixed, still holds no `||`; and one that is followed by another
      does not end in `|`. */
  lemma PreparedPieceFree(tag: string, i: nat)
    requires i < |Split(tag, "||")|
    ensures var p := PathSteps(Split(tag, "||")[i]);
            !Contains(p, "||") && !Contains(WdStep + p, "||")
    ensures i < |Split(tag, "||")| - 1 ==>
              var p := PathSteps(Split(tag, "||")[i]);
              !Contains(p + "|", "||") && !Contains(WdStep + p + "|", "||")
  {
    var piece := Split(tag, "||")[i];
    var p := PathSteps(piece);
    SplitPieceFree(tag, "||", i);
    PathStepsNoBar(piece);
    NoBarPrefix(WdStep, p);
    if i < |Split(tag, "||")| - 1 {
      SplitOpenPieces(tag, i);
      ReplaceConcat(piece, "|", ">>", "/wd:");
      ReplaceKeep("|", ">>", "/wd:");
      PathStepsNoBar(piece + "|");
      NoBarPrefix(WdStep, p + "|");
      assert WdStep + p + "|" == WdStep + (p + "|");
    }
  }

  /** `||` cannot start inside a prefix that holds no `|`. */
  lemma NoBarPrefix(w: string, s: string)
    requires '|' !in w
    ensures Contains(w + s, "||") ==> Contains(s, "||")
  {
    if Contains(w + s, "||") {
      ContainsIff(w + s, "||");
      ContainsIff(s, "||");
      var j :| OccursAt(w + s, "||", j);
      assert (w + s)[j] == (w + s)[j..j + 2][0] == '|';
      assert (w + s)[j..j + 2] == s[j - |w|..j - |w| + 2];
      assert OccursAt(s, "||", j - |w|);
    }
  }

  /** A `|` in front of a string without `||` that does not start with
      `|` creates no `||`. */
  lemma BarLead(s: string)
    requires !Contains(s, "||") && (s == [] || s[0] != '|')
    ensures !Contains("|" + s, "||")
  {
    var t := "|" + s;
    ContainsIff(s, "||");
    ContainsIff(t, "||");
    forall j | 0 <= j && j + 2 <= |t|
      ensures !OccursAt(t, "||", j)
    {
      if j == 0 {
        assert t[0..2] == ['|', s[0]];
      } else {
        assert !OccursAt(s, "||", j - 1);
        assert t[j..j + 2] == s[j - 1..j + 1];
      }
    }
  }

  /** A rewritten path starts with `|` only when the path does. */
  lemma PathStepsLead(s: string)
    ensures PathSteps(s) != [] && PathSteps(s)[0] == '|' ==> s != [] && s[0] == '|'
  {
    if s == [] {
      assert Split(s, ">>") == [s];
    } else if StartsWith(s, ">>") {
      ReplaceFront(s, ">>", "/wd:");
    } else {
      ReplaceKeep(s, ">>", "/wd:");
    }
  }

  /** Rewriting `>>` steps creates no `||`. */
  lemma {:induction false} PathStepsNoBar(s: string)
    requires !Contains(s, "||")
    ensures !Contains(PathSteps(s), "||")
    decreases |s|
  {
    if s == [] {
      assert Split(s, ">>") == [s];
    } else {
      var k := if StartsWith(s, ">>") then 2 else 1;
      var rest := s[k..];
      assert !Contains(rest, "||") by {
        if Contains(rest, "||") {
          ContainsIff(rest, "||");
          ContainsIff(s, "||");
          var j :| OccursAt(rest, "||", j);
          assert s[k + j..k + j + 2] == rest[j..j + 2];
          assert OccursAt(s, "||", k + j);
        }
      }
      PathStepsNoBar(rest);
      if k == 2 {
        ReplaceFront(s, ">>", "/wd:");
        NoBarPrefix("/wd:", PathSteps(rest));
      } else if s[0] != '|' {
        ReplaceKeep(s, ">>", "/wd:");
        NoBarPrefix([s[0]], PathSteps(rest));
      } else {
        ReplaceKeep(s, ">>", "/wd:");
        ContainsIff(s, "||");
        assert !OccursAt(s, "||", 0);
        PathStepsLead(rest);
        BarLead(PathSteps(rest));
      }
    }
  }

  /** Every piece of a split except the last is followed by the separator,
      so it cannot end in `|` when the separator is `||`. */
  lemma {:induction false} SplitOpenPieces(s: string, k: nat)
    requires k < |Split(s, "||")| - 1
    ensures !Contains(Split(s, "||")[k] + "|", "||")
    decreases |s|
  {
    var i := IndexOf(s, "||").value;
    if k == 0 {
      FirstPieceOpen(s, "||", i);
    } else {
      SplitOpenPieces(s[i + 2..], k - 1);
    }
  }

  /** The text before the first match of a doubled character, with one
      copy of that character appended, holds no match. */
  lemma FirstPieceOpen(s: string, bar: string, i: nat)
    requires |bar| == 2 && bar[0] == bar[1] && IndexOf(s, bar) == Some(i)
    ensures !Contains(s[..i] + [bar[0]], bar)
  {
    var head := s[..i] + [bar[0]];
    IndexOfFirst(s, bar);
    ContainsIff(head, bar);
    assert s[i] == s[i..i + 2][0] == bar[0];
    forall j | 0 <= j && j + 2 <= |head|
      ensures !OccursAt(head, bar, j)
    {
      assert !OccursAt(s, bar, j);
      if j + 2 <= i {
        assert head[j..j + 2] == s[j..j + 2];
      } else {
        assert head[j..j + 2] == [s[j], bar[0]];
        assert s[j..j + 2] == [s[j], s[i]];
      }
    }
  }

  /** Splitting a `||`-join gives its parts back when no part holds `||`
      and no part but the last ends in `|`. */
  lemma {:induction false} SplitJoinBars(parts: seq<string>)
    requires |parts| >= 1
    requires forall i :: 0 <= i < |parts| - 1 ==> !Contains(parts[i] + "|", "||")
    requires !Contains(parts[|parts| - 1], "||")
    ensures Split(Join("||", parts), "||") == parts
    decreases |parts|
  {
    if |parts| == 1 {
      SplitSingle(parts[0], "||");
    } else {
      SplitJoinBars(parts[1..]);
      assert "||"[..1] == "|";
      SplitConcat(parts[0], "||", Join("||", parts[1..]));
      assert [parts[0]] + parts[1..] == parts;
    }
  }

  /** Rewriting `>>` steps in a `||`-join rewrites each part. */
  lemma {:induction false} PathStepsJoin(parts: seq<string>)
    ensures PathSteps(Join("||", parts)) == Join("||", PathStepsEach(parts))
    decreases |parts|
  {
    if |parts| == 0 {
      assert Split("", ">>") == [""];
    } else if |parts| > 1 {
      PathStepsJoin(parts[1..]);
      PathStepsAround(parts[0], Join("||", parts[1..]));
      assert PathStepsEach(parts)[1..] == PathStepsEach(parts[1..]);
    }
  }

  /** `>>` cannot straddle a `||`, so the two sides are rewritten apart. */
  lemma PathStepsAround(a: string, b: string)
    ensures PathSteps(a + "||" + b) == PathSteps(a) + "||" + PathSteps(b)
  {
    assert a + "||" + b == a + ("||" + b);
    ReplaceConcat(a, "||" + b, ">>", "/wd:");
    PathStepsBars(b);
  }

  lemma PathStepsBars(b: string)
    ensures PathSteps("||" + b) == "||" + PathSteps(b)
  {
    var s := "||" + b;
    ReplaceKeep(s, ">>", "/wd:");
    assert s[1..] == "|" + b;
    ReplaceKeep("|" + b, ">>", "/wd:");
    assert ("|" + b)[1..] == b;
  }

  /** A trailing `>>` becomes one more step, unless it is preceded by a
      `>` that would pair with its first character. */
  lemma {:induction false} PathStepsSnoc(p: string)
    requires p == [] || p[|p| - 1] != '>'
    ensures PathSteps(p + ">>") == PathSteps(p) + "/wd:"
    decreases |p|, 1
  {
    if p == [] {
      PathStepsGt();
      assert p + ">>" == ">>";
    } else if StartsWith(p, ">>") {
      PathStepsSnocFront(p);
    } else {
      PathStepsSnocKeep(p);
    }
  }

  lemma PathStepsGt()
    ensures PathSteps(">>") == "/wd:"
  {
    ReplaceFront(">>", ">>", "/wd:");
    assert ">>"[2..] == [];
    assert Split([], ">>") == [[]];
  }

  lemma {:induction false} PathStepsSnocFront(p: string)
    requires StartsWith(p, ">>") && p[|p| - 1] != '>'
    ensures PathSteps(p + ">>") == PathSteps(p) + "/wd:"
    decreases |p|, 0
  {
    var s := p + ">>";
    assert StartsWith(s, ">>") by {
      assert s[..2] == p[..2];
    }
    assert s[2..] == p[2..] + ">>";
    ReplaceFront(s, ">>", "/wd:");
    ReplaceFront(p, ">>", "/wd:");
    PathStepsSnoc(p[2..]);
  }

  lemma {:induction false} PathStepsSnocKeep(p: string)
    requires p != [] && !StartsWith(p, ">>") && p[|p| - 1] != '>'
    ensures PathSteps(p + ">>") == PathSteps(p) + "/wd:"
    decreases |p|, 0
  {
    SnocKeeps(p, ">>");
    PathStepsSnoc(p[1..]);
    KeepThenAppend(p, ">>", "/wd:", ">>", "/wd:");
  }

  /** Appending `gt` after a last character other than `gt[0]` leaves a
      string that did not start with `gt` still not starting with it. */
  lemma SnocKeeps(p: string, gt: string)
    requires |gt| == 2 && gt[0] == gt[1]
    requires p != [] && !StartsWith(p, gt) && p[|p| - 1] != gt[0]
    ensures !StartsWith(p + gt, gt)
  {
    var s := p + gt;
    if |p| >= 2 {
      assert s[..2] == p[..2];
    } else {
      assert s[..2] == [p[0], gt[0]];
    }
  }

  /** Rewriting `>>` steps brings in no character but those of `/wd:`. */
  lemma {:induction false} PathStepsChars(p: string, c: char)
    requires c !in p && c !in "/wd:"
    ensures c !in PathSteps(p)
    decreases |p|
  {
    if p == [] {
      assert Split(p, ">>") == [p];
    } else if StartsWith(p, ">>") {
      ReplaceFront(p, ">>", "/wd:");
      PathStepsChars(p[2..], c);
    } else {
      ReplaceKeep(p, ">>", "/wd:");
      PathStepsChars(p[1..], c);
    }
  }

  /** `@@name` is prepared as `./wd:@@name`. */
  lemma PrepareAttributeTag(name: string)
    requires '>' !in name && '|' !in name
    ensures PrepareTag("@@" + name) == WdStep + "@@" + name
  {
    NoCharOf("@@" + name, ">>", '>');
    NoCharOf("@@" + name, "||", '|');
    PrepareTagPlain("@@" + name);
  }

  /** `path>>@@name` is prepared as `./wd:` + the rewritten path +
      `/wd:@@name`. */
  lemma PrepareNestedAttributeTag(path: string, name: string)
    requires path == [] || path[|path| - 1] != '>'
    requires '|' !in path && '>' !in name && '|' !in name
    ensures PrepareTag(path + ">>@@" + name) == WdStep + PathSteps(path) + "/wd:@@" + name
  {
    var raw := path + ">>@@" + name;
    var steps := PathSteps(path) + "/wd:@@" + name;
    PathStepsNested(path, name);
    var prepared := WdStep + steps;
    assert prepared == WdStep + PathSteps(path) + "/wd:@@" + name;
    PathStepsChars(path, '|');
    assert '|' !in prepared;
    NoCharOf(prepared, "||", '|');
    ReplaceAbsent(prepared, "||", "||./wd:");
  }

  /** A path without `>` has no step to rewrite. */
  lemma PathStepsFree(t: string)
    requires '>' !in t
    ensures PathSteps(t) == t
  {
    NoCharOf(t, ">>", '>');
    ReplaceAbsent(t, ">>", "/wd:");
  }

  /** A path is rewritten piecewise at a seam followed by `@`. */
  lemma PathStepsSplit(a: string, b: string)
    requires b != [] && b[0] == '@'
    ensures PathSteps(a + b) == PathSteps(a) + PathSteps(b)
  {
    ReplaceConcat(a, b, ">>", "/wd:");
  }

  lemma PathStepsNested(path: string, name: string)
    requires path == [] || path[|path| - 1] != '>'
    requires '>' !in name
    ensures PathSteps(path + ">>@@" + name) == PathSteps(path) + "/wd:@@" + name
  {
    var front := path + ">>";
    var tail := "@@" + name;
    var ps := PathSteps(path);
    assert path + ">>@@" + name == front + tail;
    PathStepsSplit(front, tail);
    PathStepsSnoc(path);
    PathStepsFree(tail);
    assert PathSteps(front + tail) == (ps + "/wd:") + tail;
    AttrStepConcat(ps, name);
  }

  lemma AttrStepConcat(x: string, y: string)
    ensures (x + "/wd:") + ("@@" + y) == x + "/wd:@@" + y
  {
  }

  // The three strings an `@@` tag is turned into before its lookup: the
  // XPath fallback (`wd:@@` becomes `@wd:`), the tag without `@@`, and
  // that tag without its `./wd:` steps, which names the attribute.

  /** For `./wd:@@name`: the fallback is `./@wd:name` and the attribute
      is `name`. */
  lemma AttributeTagParts(name: string)
    requires '@' !in name && !Contains(name, WdStep)
    ensures Replace(WdStep + "@@" + name, "wd:@@", "@wd:") == "./@wd:" + name
    ensures Replace(WdStep + "@@" + name, "@@", "") == WdStep + name
    ensures Replace(WdStep + name, WdStep, "") == name
  {
    assert WdStep + "@@" + name == "./" + "wd:@@" + name;
    NestedFallback("./", name);
    assert "./" + "@wd:" + name == "./@wd:" + name;
    NestedBare(WdStep, name);
    StepPrefixOff(name);
  }

  /** `./wd:` followed by a path holding no `./wd:` loses just its
      prefix. */
  lemma StepPrefixOff(rest: string)
    requires !Contains(rest, WdStep)
    ensures Replace(WdStep + rest, WdStep, "") == rest
  {
    assert [] + WdStep + rest == WdStep + rest;
    assert [] + WdStep[..4] == "./wd";
    NoCharOf("./wd", WdStep, ':');
    ReplaceAfter([], WdStep, "", rest);
    ReplaceAbsent(rest, WdStep, "");
  }

  /** For `./wd:path/wd:@@name`: the fallback is `./wd:path/@wd:name`
      and the attribute is `path/wd:name`. The last step needs the whole
      of `path/wd:name` free of `./wd:`: a path ending in `.` would lose
      more than the leading step. */
  lemma NestedAttributeTagParts(path: string, name: string)
    requires '@' !in path && '@' !in name && !Contains(path + "/wd:" + name, WdStep)
    ensures Replace(WdStep + path + "/wd:@@" + name, "wd:@@", "@wd:") == WdStep + path + "/@wd:" + name
    ensures Replace(WdStep + path + "/wd:@@" + name, "@@", "") == WdStep + path + "/wd:" + name
    ensures Replace(WdStep + path + "/wd:" + name, WdStep, "") == path + "/wd:" + name
  {
    NestedFallback(WdStep + path + "/", name);
    assert WdStep + path + "/" + "wd:@@" + name == WdStep + path + "/wd:@@" + name;
    assert WdStep + path + "/" + "@wd:" + name == WdStep + path + "/@wd:" + name;
    NestedBare(WdStep + path + "/wd:", name);
    assert WdStep + path + "/wd:" + "@@" + name == WdStep + path + "/wd:@@" + name;
    NestedPrefixOff(path + "/wd:" + name, path, name);
  }

  lemma NestedPrefixOff(rest: string, path: string, name: string)
    requires rest == path + "/wd:" + name && !Contains(rest, WdStep)
    ensures Replace(WdStep + path + "/wd:" + name, WdStep, "") == rest
  {
    assert WdStep + path + "/wd:" + name == WdStep + rest;
    StepPrefixOff(rest);
  }

  lemma NestedFallback(lead: string, name: string)
    requires '@' !in lead && '@' !in name
    ensures Replace(lead + "wd:@@" + name, "wd:@@", "@wd:") == lead + "@wd:" + name
  {
    assert lead + "wd:@@"[..4] == (lead + "wd:") + ['@'];
    NoDoubleChar(lead + "wd:", '@', "wd:@@", 3);
    ReplaceAfter(lead, "wd:@@", "@wd:", name);
    NoCharOf(name, "wd:@@", '@');
    ReplaceAbsent(name, "wd:@@", "@wd:");
  }

  lemma NestedBare(steps: string, name: string)
    requires '@' !in steps && '@' !in name
    ensures Replace(steps + "@@" + name, "@@", "") == steps + name
  {
    assert steps + "@@"[..1] == steps + ['@'];
    NoDoubleChar(steps, '@', "@@", 0);
    ReplaceAfter(steps, "@@", "", name);
    NoCharOf(name, "@@", '@');
    ReplaceAbsent(name, "@@", "");
  }

  /** Joining with `||./wd:` is joining with `||` after prefixing every
      part but the first. */
  lemma {:induction false} JoinRetag(head: string, rest: seq<string>)
    ensures Join("||./wd:", [head] + rest) == Join("||", [head] + PrefixEach(rest))
    decreases |rest|
  {
    if |rest| > 0 {
      var tagged := PrefixEach(rest);
      JoinRetag(rest[0], rest[1..]);
      assert [rest[0]] + rest[1..] == rest;
      JoinCons("||./wd:", head, rest);
      JoinCons("||", head, tagged);
      if |rest| > 1 {
        JoinCons("||./wd:", rest[0], rest[1..]);
        JoinCons("||", rest[0], PrefixEach(rest[1..]));
        JoinCons("||", tagged[0], tagged[1..]);
        assert [tagged[0]] + tagged[1..] == tagged;
        assert tagged[1..] == PrefixEach(rest[1..]);
      }
    }
  }

  // ---------------------------------------------------------------------
  // Wildcards: `path%term?=kind%end`
  // ---------------------------------------------------------------------

  datatype WildcardKind = KindType | KindText | KindTag

  /** One parsed wildcard alternative: the path to search under, the term,
      what the term is matched against, and the path after the match. */
  datatype Wildcard = Wildcard(path: string, term: string, kind: WildcardKind, end: string)

  function KindName(k: WildcardKind): string {
    match k
    case KindType => "type"
    case KindText => "text"
    case KindTag => "tag"
  }

  /** One alternative of a wildcard tag: exactly three `%`-pieces, a middle
      piece with exactly two `?=`-pieces, every piece stripped, and a known
      kind. Anything else is skipped (the source reports it and goes on
      with the next alternative). */
  function ParseWildcard(alt: string): Option<Wildcard> {
    var pieces := Split(alt, "%");
    if |pieces| != 3 then None
    else
      var inner := Split(pieces[1], "?=");
      if |inner| != 2 then None
      else
        match ParseKind(Strip(inner[1]))
        case None => None
        case Some(kind) => Some(Wildcard(Strip(pieces[0]), Strip(inner[0]), kind, Strip(pieces[2])))
  }

  /** The three kinds the source recognises. */
  function ParseKind(s: string): Option<WildcardKind> {
    if s == "type" then Some(KindType)
    else if s == "text" then Some(KindText)
    else if s == "tag" then Some(KindTag)
    else None
  }

  lemma ParseKindName(k: WildcardKind)
    ensures ParseKind(KindName(k)) == Some(k)
    ensures Strip(KindName(k)) == KindName(k)
  {
  }

  const UpperAlphabet: string := "ABCDEFGHIJKLMNOPQRSTUVWXYZ"
  const LowerAlphabet: string := "abcdefghijklmnopqrstuvwxyz"

  /** What a kind matches against: the `wd:type` attribute or the text of
      an `ID` element, or the local name of any element. */
  function KindSubject(k: WildcardKind): string {
    match k
    case KindType => "@wd:type"
    case KindText => "text()"
    case KindTag => "local-name()"
  }

  function KindStep(k: WildcardKind): string {
    if k == KindTag then "*" else "ID"
  }

  /** The XPath 1.0 expression for a wildcard: a case-insensitive
      `contains` of the lower-cased term, done with `translate`. */
  function RenderWildcard(w: Wildcard): string {
    w.path + KindStep(w.kind) + "[contains(translate(" + KindSubject(w.kind) + ", '"
      + UpperAlphabet + "', '" + LowerAlphabet + "'), '" + Lower(w.term) + "')]" + w.end
  }

  /** Each alternative parsed on its own. */
  function ParseAll(alts: seq<string>): (parsed: seq<Option<Wildcard>>)
    ensures |parsed| == |alts|
  {
    seq(|alts|, i requires 0 <= i < |alts| => ParseWildcard(alts[i]))
  }

  /** The expressions for the alternatives that parsed, in order, each
      rendered by `render`. */
  function ExpandParsed(parsed: seq<Option<Wildcard>>, render: Wildcard -> string): seq<string>
    decreases |parsed|
  {
    if parsed == [] then []
    else
      var init := ExpandParsed(parsed[..|parsed| - 1], render);
      match parsed[|parsed| - 1]
      case None => init
      case Some(w) => init + [render(w)]
  }

  /** The tag a wildcard tag is rewritten to. */
  function ExpandedTag(tag: string): string {
    Join("||", ExpandParsed(ParseAll(Split(tag, "||")), RenderWildcard))
  }

  /** The wildcard block of `_pull_data`: split on `||`, expand each
      alternative that parses, and join the expressions back with `||`. */
  method ExpandWildcards(tag: string) returns (expanded: string)
    ensures expanded == ExpandedTag(tag)
  {
    var render := RenderWildcard;
    var xpath: seq<string> := [];
    var multiTags := Split(tag, "||");
    ghost var parsed := ParseAll(multiTags);
    for i := 0 to |multiTags|
      invariant xpath == ExpandParsed(parsed[..i], render)
    {
      var w := ParseWildcard(multiTags[i]);
      ExpandStep(parsed, i, render);
      assert parsed[i] == w;
      if w.Some? {
        xpath := xpath + [render(w.value)];
      }
    }
    assert parsed[..|multiTags|] == parsed;
    expanded := Join("||", xpath);
  }

  /** One more alternative adds its expression when it parsed. */
  lemma ExpandStep(parsed: seq<Option<Wildcard>>, i: nat, render: Wildcard -> string)
    requires i < |parsed|
    ensures ExpandParsed(parsed[..i + 1], render)
         == ExpandParsed(parsed[..i], render) + (if parsed[i].Some? then [render(parsed[i].value)] else [])
  {
    assert parsed[..i + 1][..i] == parsed[..i];
  }

  /** Malformed alternatives are dropped: at most one expression per
      alternative. */
  lemma {:induction false} ExpandAtMostOne(parsed: seq<Option<Wildcard>>, render: Wildcard -> string)
    ensures |ExpandParsed(parsed, render)| <= |parsed|
    decreases |parsed|
  {
    if parsed != [] {
      ExpandAtMostOne(parsed[..|parsed| - 1], render);
    }
  }

  /** When every alternative parses, the `i`-th expression is the `i`-th
      alternative's. */
  lemma {:induction false} ExpandAllParsed(parsed: seq<Option<Wildcard>>, render: Wildcard -> string)
    requires forall i :: 0 <= i < |parsed| ==> parsed[i].Some?
    ensures |ExpandParsed(parsed, render)| == |parsed|
    ensures forall i :: 0 <= i < |parsed| ==> ExpandParsed(parsed, render)[i] == render(parsed[i].value)
    decreases |parsed|
  {
    if parsed != [] {
      var init := parsed[..|parsed| - 1];
      ExpandAllParsed(init, render);
      forall i | 0 <= i < |init|
        ensures init[i] == parsed[i]
      {
      }
    }
  }

  /** When no alternative parses the tag becomes the empty string. */
  lemma {:induction false} ExpandNone(parsed: seq<Option<Wildcard>>, render: Wildcard -> string)
    requires forall i :: 0 <= i < |parsed| ==> parsed[i].None?
    ensures ExpandParsed(parsed, render) == []
    ensures Join("||", ExpandParsed(parsed, render)) == ""
    decreases |parsed|
  {
    if parsed != [] {
      ExpandNone(parsed[..|parsed| - 1], render);
    }
  }

  /** The text of a wildcard alternative, the inverse of `ParseWildcard`. */
  function UnparseWildcard(w: Wildcard): string {
    w.path + "%" + (w.term + "?=" + KindName(w.kind) + "%" + w.end)
  }

  /** A piece that the surrounding text would not alter: no whitespace at
      either end and no `%`. */
  predicate CleanPiece(s: string) {
    !Contains(s, "%") && (s == [] || (!IsSpace(s[0]) && !IsSpace(s[|s| - 1])))
  }

  /** Parsing the text of a wildcard gives it back, for pieces free of the
      delimiters and of surrounding whitespace. */
  lemma ParseUnparse(w: Wildcard)
    requires CleanPiece(w.path) && CleanPiece(w.term) && CleanPiece(w.end)
    requires !Contains(w.term, "?=")
    ensures ParseWildcard(UnparseWildcard(w)) == Some(w)
  {
    UnparsePieces(w);
    StripClean(w.path);
    StripClean(w.term);
    StripClean(w.end);
    ParseKindName(w.kind);
  }

  /** The two splits `ParseWildcard` makes recover the pieces. */
  lemma UnparsePieces(w: Wildcard)
    requires CleanPiece(w.path) && CleanPiece(w.term) && CleanPiece(w.end)
    requires !Contains(w.term, "?=")
    ensures Split(UnparseWildcard(w), "%") == [w.path, w.term + "?=" + KindName(w.kind), w.end]
    ensures Split(w.term + "?=" + KindName(w.kind), "?=") == [w.term, KindName(w.kind)]
  {
    var kind := KindName(w.kind);
    var middle := w.term + "?=" + kind;
    KindNameFree(w.kind);
    NoCharConcat3(w.term, "?=", kind, '%');
    assert "%" == ['%'];
    SplitThree(w.path, middle, w.end, "%");
    TermBeforeQuery(w.term);
    SplitTwo(w.term, kind, "?=");
  }

  /** The kind names hold neither delimiter. */
  lemma KindNameFree(k: WildcardKind)
    ensures !Contains(KindName(k), "%") && !Contains(KindName(k), "?=")
  {
    NoCharIn(KindName(k), "%");
    NoCharIn(KindName(k), "?=");
  }

  /** Splitting three separator-free pieces joined by a one-character
      separator. */
  lemma SplitThree(a: string, b: string, c: string, sep: string)
    requires |sep| == 1
    requires !Contains(a, sep) && !Contains(b, sep) && !Contains(c, sep)
    ensures Split(a + sep + (b + sep + c), sep) == [a, b, c]
  {
    assert b + sep[..0] == b;
    SplitTwo(b, c, sep);
    SplitAfterFree(a, sep, b + sep + c);
  }

  /** `SplitConcat` for a one-character separator. */
  lemma SplitAfterFree(a: string, sep: string, b: string)
    requires |sep| == 1 && !Contains(a, sep)
    ensures Split(a + sep + b, sep) == [a] + Split(b, sep)
  {
    assert a + sep[..0] == a;
    SplitConcat(a, sep, b);
  }

  /** Splitting two pieces joined by a separator that cannot straddle the
      first piece's end. */
  lemma SplitTwo(a: string, b: string, sep: string)
    requires |sep| > 0
    requires !Contains(a + sep[..|sep| - 1], sep) && !Contains(b, sep)
    ensures Split(a + sep + b, sep) == [a, b]
  {
    SplitConcat(a, sep, b);
    SplitSingle(b, sep);
  }

  /** A single-character-free string has no occurrence of a separator
      starting with that character; used for the kind names, which hold
      neither `%` nor `?`. */
  lemma NoCharIn(s: string, sep: string)
    requires |sep| > 0 && forall i :: 0 <= i < |s| ==> s[i] != sep[0]
    ensures !Contains(s, sep)
  {
    ContainsIff(s, sep);
    forall j | 0 <= j && j + |sep| <= |s|
      ensures !OccursAt(s, sep, j)
    {
      assert s[j..j + |sep|][0] == s[j];
    }
  }

  /** `a + b + c` holds no `c0` when none of the three does. */
  lemma NoCharConcat3(a: string, b: string, c: string, c0: char)
    requires !Contains(a, [c0]) && !Contains(c, [c0])
    requires forall i :: 0 <= i < |b| ==> b[i] != c0
    ensures !Contains(a + b + c, [c0])
  {
    var s := a + b + c;
    ContainsIff(a, [c0]);
    ContainsIff(c, [c0]);
    ContainsIff(s, [c0]);
    forall j | 0 <= j < |s|
      ensures !OccursAt(s, [c0], j)
    {
      assert s[j..j + 1][0] == s[j];
      if j < |a| {
        assert s[j..j + 1] == a[j..j + 1];
        assert !OccursAt(a, [c0], j);
      } else if j >= |a| + |b| {
        assert s[j..j + 1] == c[j - |a| - |b|..j - |a| - |b| + 1];
        assert !OccursAt(c, [c0], j - |a| - |b|);
      } else {
        assert s[j] == b[j - |a|];
      }
    }
  }

  /** A term with no `?=` keeps that property when followed by `?`, since
      `?=` cannot straddle the boundary. */
  lemma TermBeforeQuery(term: string)
    requires !Contains(term, "?=")
    ensures !Contains(term + "?="[..1], "?=")
  {
    var s := term + "?="[..1];
    ContainsIff(term, "?=");
    ContainsIff(s, "?=");
    forall j | 0 <= j && j + 2 <= |s|
      ensures !OccursAt(s, "?=", j)
    {
      assert s[j..j + 2][1] == s[j + 1];
      if j + 2 <= |term| {
        assert term[j..j + 2] == s[j..j + 2];
        assert !OccursAt(term, "?=", j);
      }
    }
  }

  /** Splitting `a + sep + b` when no occurrence of `sep` starts inside
      `a`: the first piece is `a`. */
  lemma SplitConcat(a: string, sep: string, b: string)
    requires |sep| > 0
    requires !Contains(a + sep[..|sep| - 1], sep)
    ensures Split(a + sep + b, sep) == [a] + Split(b, sep)
  {
    var s := a + sep + b;
    var pre := a + sep[..|sep| - 1];
    assert OccursAt(s, sep, |a|) by {
      assert s[|a|..|a| + |sep|] == sep;
    }
    ContainsIff(pre, sep);
    IndexOfFirst(s, sep);
    IndexOfNone(s, sep);
    var i := IndexOf(s, sep).value;
    if i < |a| {
      assert s[i..i + |sep|] == pre[i..i + |sep|];
      assert OccursAt(pre, sep, i);
    }
    assert i == |a|;
    assert s[..i] == a;
    assert s[i + |sep|..] == b;
  }

  /** Replacing in `a + pattern + b` when no occurrence of `pattern`
      starts inside `a`: `a` is kept and the scan resumes in `b`. */
  lemma ReplaceAfter(a: string, pattern: string, replacement: string, b: string)
    requires |pattern| > 0
    requires !Contains(a + pattern[..|pattern| - 1], pattern)
    ensures Replace(a + pattern + b, pattern, replacement) == a + replacement + Replace(b, pattern, replacement)
  {
    SplitConcat(a, pattern, b);
    JoinCons(replacement, a, Split(b, pattern));
  }

  lemma SplitSingle(s: string, sep: string)
    requires |sep| > 0 && !Contains(s, sep)
    ensures Split(s, sep) == [s]
  {
  }

  /** Stripping a string with no whitespace at either end changes nothing. */
  lemma StripClean(s: string)
    requires s == [] || (!IsSpace(s[0]) && !IsSpace(s[|s| - 1]))
    ensures Strip(s) == s
  {
  }
}
