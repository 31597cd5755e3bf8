/** `_pull_data`: the row-flattening engine. Every record element is
    matched against the tag list in order; each tag adds cells to the
    element's row (`row_dict`), may append rows to the output
    (`row_list`) and may raise the `added_to_list` flag, in which case the
    element's own row is not appended when its tags are done.

    The functions below state what the source computes, branch by branch;
    the methods further down are the source's loops, each proved equal to
    its function. Python exceptions the source can raise become `Err`. */
module Engine {
  import opened Results
  import opened PyStr
  import opened Xml
  import opened Rows
  import opened ElementData
  import opened Tags

  /** The exceptions `_pull_data` can raise on well-typed input:
      unpacking a `^^` split that is not in two parts (`ValueError`),
      `typename[1]` of an OR-chain without `|=` (`IndexError`), and
      `.text`, `.get` or child access on a string result of an XPath query
      (`AttributeError`); and calling a name the module does not define
      (`NameError`), which only the as-written `*` branch does. */
  datatype PyError = ValueError | IndexError | AttributeError | NameError

  /** The variables of the loop over one element's tags: `row_dict`,
      `added_to_list` and the shared output `row_list`. */
  datatype State = State(row: Row, added: bool, out: seq<Row>)

  /** The Clark name `elem.get` is given to read the Workday type. */
  const TypeKey: string := "{" + WorkdayNamespace + "}type"

  // ---------------------------------------------------------------------
  // Cells taken from query results
  // ---------------------------------------------------------------------

  /** `e.text`, which a string result does not have. */
  function NodeText(n: Node): Result<Value, PyError> {
    match n
    case NElem(e) => Ok(TextValue(e.text))
    case NStr(_) => Err(AttributeError)
  }

  /** The query result itself as a cell: an element is stored as it is. */
  function NodeObject(n: Node): Value {
    match n
    case NElem(e) => VNode(e)
    case NStr(s) => VText(s)
  }

  /** `elem.text if hasattr(elem, 'text') else elem`. */
  function NodeCell(n: Node): Value {
    match n
    case NElem(e) => TextValue(e.text)
    case NStr(s) => VText(s)
  }

  /** `_extract_element_data(node, ns, prefix='')`: a string result has no
      children to iterate unless it is non-empty, and then its first
      character has no `tag`. */
  function NestedData(n: Node): Result<Row, PyError> {
    match n
    case NElem(e) => Ok(ElementData.ElementData(e, "", DefaultMaxLength))
    case NStr(s) => if s == "" then Ok(map[]) else Err(AttributeError)
  }

  // ---------------------------------------------------------------------
  // `~`: flatten a whole subtree into the row
  // ---------------------------------------------------------------------

  /** The copies of `row` the first `n` matches fan out to, each updated
      with its match's flattened subtree. */
  function TildeRows(row: Row, nodes: seq<Node>, flatten: Node -> Result<Row, PyError>, n: nat): Result<seq<Row>, PyError>
    requires n <= |nodes|
  {
    if n == 0 then Ok([])
    else
      var rows :- TildeRows(row, nodes, flatten, n - 1);
      var nested :- flatten(nodes[n - 1]);
      Ok(rows + [row + nested])
  }

  /** `collected_data` after one more match's cells: each key's list gets
      the new value appended, a new key starts a list of one. */
  function AddCollected(c: map<string, seq<Value>>, d: Row): map<string, seq<Value>> {
    map k | k in c.Keys + d.Keys :: (if k in c then c[k] else []) + (if k in d then [d[k]] else [])
  }

  /** `collected_data` after the first `n` matches. */
  function Collected(nodes: seq<Node>, flatten: Node -> Result<Row, PyError>, n: nat): Result<map<string, seq<Value>>, PyError>
    requires n <= |nodes|
  {
    if n == 0 then Ok(map[])
    else
      var c :- Collected(nodes, flatten, n - 1);
      var nested :- flatten(nodes[n - 1]);
      Ok(AddCollected(c, nested))
  }

  /** The lists of `collected_data` as cells. */
  function AsLists(c: map<string, seq<Value>>): Row {
    map k | k in c :: VList(c[k])
  }

  /** Reference for one collected list: the values the first `n`
      flattened matches hold under `k`, in document order, skipping the
      matches without that key. */
  function ColumnValues(nodes: seq<Node>, flatten: Node -> Result<Row, PyError>, n: nat, k: string): seq<Value>
    requires n <= |nodes|
  {
    if n == 0 then []
    else
      var d := flatten(nodes[n - 1]);
      ColumnValues(nodes, flatten, n - 1, k) + (if d.Ok? && k in d.value then [d.value[k]] else [])
  }

  /** The query of a `~` tag: its path with every `~` removed, stripped. */
  function TildeQuery(o: Oracle, e: Element, tag: string): seq<Node> {
    o.xpath(e, Strip(Replace(tag, "~", "")))
  }

  /** A `~` tag: query the path with every `~` removed; one match is
      flattened into the row, several are collected into lists or fanned
      out into rows, none stores `None` under the raw tag. The flag is
      raised in every case. */
  function FlattenAll(o: Oracle, e: Element, tag: string, st: State, allow: bool): Result<State, PyError> {
    var elems := TildeQuery(o, e, tag);
    var st' :-
      if |elems| == 1 then
        var nested :- NestedData(elems[0]);
        Ok(st.(row := st.row + nested))
      else if |elems| > 1 then
        if allow then
          var c :- Collected(elems, NestedData, |elems|);
          Ok(st.(row := st.row + AsLists(c)))
        else
          var rows :- TildeRows(st.row, elems, NestedData, |elems|);
          Ok(st.(out := st.out + rows, added := true))
      else Ok(st.(row := st.row[tag := VNone]));
    Ok(st'.(added := true))
  }

  // ---------------------------------------------------------------------
  // Plain tags: `^^`, `@@`, `%`, `||`, then the lookup
  // ---------------------------------------------------------------------

  /** `tag, name = tag.split('^^')` when the tag holds `^^`, else the tag
      is its own column name. */
  function SplitRename(tag: string): Result<(string, string), PyError> {
    if Contains(tag, "^^") then
      var parts := Split(tag, "^^");
      if |parts| == 2 then Ok((parts[0], parts[1])) else Err(ValueError)
    else Ok((tag, tag))
  }

  /** An `@@` tag: the attribute named by the tag without its `./wd:`
      steps, or else the first result of the path with its last step
      turned into an attribute step, or `None`. */
  function AttributeCell(o: Oracle, e: Element, tag: string): Value {
    var tmpTag := Replace(tag, "wd:@@", "@wd:");
    var bare := Replace(tag, "@@", "");
    var t := "{" + WorkdayNamespace + "}" + Replace(bare, "./wd:", "");
    match GetAttr(e, t)
    case Some(v) => VText(v)
    case None =>
      var found := o.xpath(e, tmpTag);
      if |found| > 0 then NodeObject(found[0]) else VNone
  }

  /** The OR-chain: the alternatives are queried left to right until one
      has exactly one result, whose `wd:type` attribute is stored under
      `typeCol`. The results of the last query made are returned with the
      row. */
  function OrChain(o: Oracle, e: Element, alts: seq<string>, typeCol: string, row: Row)
    : Result<(Row, seq<Node>), PyError>
    requires |alts| > 0
    decreases |alts|
  {
    var found := o.xpath(e, alts[0]);
    if |found| == 1 then
      match found[0]
      case NStr(_) => Err(AttributeError)
      case NElem(m) => Ok((row[typeCol := TextValue(GetAttr(m, TypeKey))], found))
    else if |alts| == 1 then Ok((row, found))
    else OrChain(o, e, alts[1..], typeCol, row)
  }

  /** The query of a plain tag: an OR-chain when the tag holds `||` (its
      type column named after `|=`), a single query otherwise. */
  function Lookup(o: Oracle, e: Element, tag: string, row: Row): Result<(Row, seq<Node>), PyError> {
    if Contains(tag, "||") then
      var typename := Split(tag, "|=");
      if |typename| < 2 then Err(IndexError)
      else OrChain(o, e, Split(Replace(tag, "|=" + typename[1], ""), "||"), typename[1], row)
    else Ok((row, o.xpath(e, tag)))
  }

  /** The cells of a collection: texts when the first result is an
      element, the results themselves otherwise. */
  function Cells(nodes: seq<Node>, textual: bool, n: nat): Result<seq<Value>, PyError>
    requires n <= |nodes|
  {
    if n == 0 then Ok([])
    else
      var cells :- Cells(nodes, textual, n - 1);
      var cell :- if textual then NodeText(nodes[n - 1]) else Ok(NodeObject(nodes[n - 1]));
      Ok(cells + [cell])
  }

  /** The copies of `row` the first `n` results fan out to, each with
      `name` set to its result's text. */
  function FanOutRows(row: Row, name: string, nodes: seq<Node>, n: nat): Result<seq<Row>, PyError>
    requires n <= |nodes|
  {
    if n == 0 then Ok([])
    else
      var rows :- FanOutRows(row, name, nodes, n - 1);
      var text :- NodeText(nodes[n - 1]);
      Ok(rows + [row[name := text]])
  }

  /** Storing the results under `name`: one result is a cell, several a
      list cell or one row each, none leaves the row as it is. */
  function Store(name: string, found: seq<Node>, st: State, allow: bool): Result<State, PyError> {
    if |found| == 1 then Ok(st.(row := st.row[name := NodeCell(found[0])]))
    else if |found| > 1 then
      if allow then
        var cells :- Cells(found, found[0].NElem?, |found|);
        Ok(st.(row := st.row[name := VList(cells)]))
      else
        var rows :- FanOutRows(st.row, name, found, |found|);
        Ok(st.(out := st.out + rows, added := true))
    else Ok(st)
  }

  /** A tag with neither `*` nor `~`. */
  function PlainTag(o: Oracle, e: Element, tag0: string, st: State, allow: bool): Result<State, PyError> {
    var renamed :- SplitRename(tag0);
    var tag := renamed.0;
    var name := renamed.1;
    if Contains(tag, "@@") then Ok(st.(row := st.row[name := AttributeCell(o, e, tag)]))
    else
      var query := if '%' in tag then ExpandedTag(tag) else tag;
      var looked :- Lookup(o, e, query, st.row);
      Store(name, looked.1, st.(row := looked.0), allow)
  }

  /** One tag that is not a nested group. */
  function TagStep(o: Oracle, e: Element, tag: string, st: State, allow: bool): Result<State, PyError> {
    if '~' in tag then FlattenAll(o, e, tag, st, allow) else PlainTag(o, e, tag, st, allow)
  }

  // ---------------------------------------------------------------------
  // The two loops and the `*` recursion
  // ---------------------------------------------------------------------

  /** The tags from index `k` on, applied to element `e`. A `*` tag runs
      the engine on the matched children with the tags following it and
      the current row as inherited cells, appends what that returns, and
      ends the loop. */
  function RunTags(o: Oracle, e: Element, tags: seq<string>, k: nat, st: State, allow: bool): Result<State, PyError>
    requires k <= |tags|
    decreases |tags|, 0, |tags| - k
  {
    if k == |tags| then Ok(st)
    else if '*' in tags[k] then
      var elements := o.findall(e, "./" + Replace(tags[k], "*", ""));
      AfterShorter(tags, tags[k]);
      var sub :- PullRows(o, elements, After(tags, tags[k]), st.row, allow, |elements|);
      Ok(st.(out := st.out + sub, added := true))
    else
      var st' :- TagStep(o, e, tags[k], st, allow);
      RunTags(o, e, tags, k + 1, st', allow)
  }

  /** The names bound at the top level of `process_data.py`: its imports
      and the functions it defines. */
  const ModuleNames: set<string> :=
    {"re", "json", "xmltodict", "etree", "pa",
     "to_pyarrow", "to_dict", "to_json", "_pull_data", "_next_tags", "_extract_element_data", "_shorten_column_name"}

  /** The name the `*` branch calls, as written. */
  const StarCalleeAsWritten: string := "pull_data"

  /** The name it evidently means: the engine itself. */
  const StarCallee: string := "_pull_data"

  /** The `*` branch, once the matched children and the nested tags are
      known: the callee's name is looked up before anything else, and then
      the nested engine's rows are appended and the flag raised. */
  function StarBranch(callee: string, nested: Result<seq<Row>, PyError>, st: State): Result<State, PyError> {
    if callee !in ModuleNames then Err(NameError)
    else
      var sub :- nested;
      Ok(st.(out := st.out + sub, added := true))
  }

  /** As written, the call names nothing the module binds: every `*` tag
      that is reached raises `NameError`, whatever the nested call would
      have returned. */
  lemma StarAsWritten(nested: Result<seq<Row>, PyError>, st: State)
    ensures StarBranch(StarCalleeAsWritten, nested, st) == Err(NameError)
  {
    assert StarCalleeAsWritten !in ModuleNames by {
      assert |StarCalleeAsWritten| == 9;
    }
  }

  /** With the call resolved to the engine itself, the `*` branch is what
      `RunTags` does: the children found by `findall`, run with the tags
      after the `*` tag and the current row inherited. */
  lemma StarCorrected(o: Oracle, e: Element, tags: seq<string>, k: nat, st: State, allow: bool)
    requires k < |tags| && '*' in tags[k]
    ensures var elements := o.findall(e, "./" + Replace(tags[k], "*", ""));
            RunTags(o, e, tags, k, st, allow)
            == StarBranch(StarCallee, PullRows(o, elements, After(tags, tags[k]), st.row, allow, |elements|), st)
  {
    assert StarCallee in ModuleNames;
  }

  /** The rows the first `n` elements give: each starts as a copy of
      `high`, and its row is appended after its tags unless the flag was
      raised. */
  function PullRows(o: Oracle, elems: seq<Element>, tags: seq<string>, high: Row, allow: bool, n: nat)
    : Result<seq<Row>, PyError>
    requires n <= |elems|
    decreases |tags|, 1, n
  {
    if n == 0 then Ok([])
    else
      var out :- PullRows(o, elems, tags, high, allow, n - 1);
      var st :- RunTags(o, elems[n - 1], tags, 0, State(high, false, out), allow);
      Ok(if st.added then st.out else st.out + [st.row])
  }

  // ---------------------------------------------------------------------
  // The source's loops
  // ---------------------------------------------------------------------

  /** `_pull_data`: the loop over the elements. */
  method PullData(o: Oracle, responses: seq<Element>, tags: seq<string>, high: Row, allow: bool)
    returns (result: Result<seq<Row>, PyError>)
    ensures result == PullRows(o, responses, tags, high, allow, |responses|)
    decreases |tags|, 1
  {
    var rowList: seq<Row> := [];
    for i := 0 to |responses|
      invariant PullRows(o, responses, tags, high, allow, i) == Ok(rowList)
    {
      var element := responses[i];
      PullRowsStuck(o, responses, tags, high, allow, i + 1, |responses|);
      var st :- PullElement(o, element, tags, high, allow, rowList);
      rowList := st.out;
      if !st.added {
        rowList := rowList + [st.row];
      }
    }
    return Ok(rowList);
  }

  /** The loop over the tags for one element, from a fresh copy of `high`
      and a lowered flag; a `*` tag ends it with `break`. */
  method PullElement(o: Oracle, element: Element, tags: seq<string>, high: Row, allow: bool, rowList0: seq<Row>)
    returns (result: Result<State, PyError>)
    ensures result == RunTags(o, element, tags, 0, State(high, false, rowList0), allow)
    decreases |tags|, 0
  {
    var addedToList := false;
    var rowDict := high;
    var rowList := rowList0;
    var k := 0;
    while k < |tags|
      invariant k <= |tags|
      invariant RunTags(o, element, tags, 0, State(high, false, rowList0), allow)
             == RunTags(o, element, tags, k, State(rowDict, addedToList, rowList), allow)
    {
      var tag := tags[k];
      if '*' in tag {
        var elements := o.findall(element, "./" + Replace(tag, "*", ""));
        var nestedTags := NextTags(tags, tag);
        AfterShorter(tags, tag);
        var subList :- PullData(o, elements, nestedTags, rowDict, allow);
        rowList := rowList + subList;
        addedToList := true;
        break;
      }
      var st :- ApplyTag(o, element, tag, State(rowDict, addedToList, rowList), allow);
      rowDict, addedToList, rowList := st.row, st.added, st.out;
      k := k + 1;
    }
    return Ok(State(rowDict, addedToList, rowList));
  }

  /** The body of the tag loop for a tag without `*`. */
  method ApplyTag(o: Oracle, element: Element, tag: string, st: State, allow: bool)
    returns (result: Result<State, PyError>)
    ensures result == TagStep(o, element, tag, st, allow)
  {
    if '~' in tag {
      result := ApplyFlattenAll(o, element, tag, st, allow);
    } else {
      result := ApplyPlainTag(o, element, tag, st, allow);
    }
  }

  /** `_extract_element_data(node, ns, prefix='')` on a query result. */
  method ExtractNode(n: Node) returns (result: Result<Row, PyError>)
    ensures result == NestedData(n)
  {
    match n
    case NElem(e) =>
      var data, _ := ExtractElementData(e, "", DefaultMaxLength, {});
      return Ok(data);
    case NStr(s) =>
      if s == "" {
        return Ok(map[]);
      }
      return Err(AttributeError);
  }

  /** The `~` branch. */
  method ApplyFlattenAll(o: Oracle, element: Element, tag: string, st: State, allow: bool)
    returns (result: Result<State, PyError>)
    ensures result == FlattenAll(o, element, tag, st, allow)
  {
    var rowDict, rowList := st.row, st.out;
    var parentPath := Strip(Replace(tag, "~", ""));
    var elems := o.xpath(element, parentPath);
    if |elems| == 1 {
      var nestedData :- ExtractNode(elems[0]);
      rowDict := rowDict + nestedData;
    } else if |elems| > 1 {
      if allow {
        var collectedData :- CollectMatches(elems);
        rowDict := rowDict + AsLists(collectedData);
      } else {
        var subList :- FlattenMatches(rowDict, elems);
        rowList := rowList + subList;
      }
    } else {
      rowDict := rowDict[tag := VNone];
    }
    return Ok(State(rowDict, true, rowList));
  }

  /** The collecting loop of the `~` branch: every match flattened, its
      cells appended to `collected_data`. */
  method CollectMatches(elems: seq<Node>) returns (result: Result<map<string, seq<Value>>, PyError>)
    ensures result == Collected(elems, NestedData, |elems|)
  {
    var collectedData: map<string, seq<Value>> := map[];
    for i := 0 to |elems|
      invariant Collected(elems, NestedData, i) == Ok(collectedData)
    {
      CollectedStuck(elems, NestedData, i + 1, |elems|);
      var nestedData :- ExtractNode(elems[i]);
      collectedData := MergeCollected(collectedData, nestedData);
    }
    return Ok(collectedData);
  }

  /** The fan-out loop of the `~` branch: one copy of the row per match,
      updated with the match's flattened cells. */
  method FlattenMatches(rowDict: Row, elems: seq<Node>) returns (result: Result<seq<Row>, PyError>)
    ensures result == TildeRows(rowDict, elems, NestedData, |elems|)
  {
    var subList: seq<Row> := [];
    for i := 0 to |elems|
      invariant TildeRows(rowDict, elems, NestedData, i) == Ok(subList)
    {
      TildeRowsStuck(rowDict, elems, NestedData, i + 1, |elems|);
      TildeRowsStep(rowDict, elems, NestedData, i);
      var rowD := rowDict;
      var nestedData :- ExtractNode(elems[i]);
      rowD := rowD + nestedData;
      subList := subList + [rowD];
    }
    return Ok(subList);
  }

  /** The loop over one match's cells in the collecting case. */
  method MergeCollected(c: map<string, seq<Value>>, d: Row) returns (c': map<string, seq<Value>>)
    ensures c' == AddCollected(c, d)
  {
    c' := c;
    var todo := d.Keys;
    while todo != {}
      invariant todo <= d.Keys
      invariant forall k :: k in c' <==> k in c || (k in d && k !in todo)
      invariant forall k :: k in c' ==> c'[k] == (if k in c then c[k] else []) + (if k in d && k !in todo then [d[k]] else [])
      decreases todo
    {
      var k :| k in todo;
      if k in c' {
        c' := c'[k := c'[k] + [d[k]]];
      } else {
        c' := c'[k := [d[k]]];
      }
      todo := todo - {k};
    }
  }

  /** A tag without `*` or `~`. */
  method ApplyPlainTag(o: Oracle, element: Element, tag0: string, st: State, allow: bool)
    returns (result: Result<State, PyError>)
    ensures result == PlainTag(o, element, tag0, st, allow)
  {
    var tag, name := tag0, tag0;
    if Contains(tag, "^^") {
      var parts := Split(tag, "^^");
      if |parts| != 2 {
        return Err(ValueError);
      }
      tag, name := parts[0], parts[1];
    }
    if Contains(tag, "@@") {
      var cell := LookupAttribute(o, element, tag);
      return Ok(st.(row := st.row[name := cell]));
    }
    if '%' in tag {
      tag := ExpandWildcards(tag);
    }
    var rowDict := st.row;
    var elem: seq<Node>;
    if Contains(tag, "||") {
      var typename := Split(tag, "|=");
      if |typename| < 2 {
        return Err(IndexError);
      }
      tag := Replace(tag, "|=" + typename[1], "");
      var looked :- RunOrChain(o, element, Split(tag, "||"), typename[1], rowDict);
      rowDict, elem := looked.0, looked.1;
    } else {
      elem := o.xpath(element, tag);
    }
    result := StoreFound(name, elem, st.(row := rowDict), allow);
  }

  /** The `@@` branch: the attribute itself, else the first result of
      the attribute path, else `None`. */
  method LookupAttribute(o: Oracle, element: Element, tag0: string) returns (cell: Value)
    ensures cell == AttributeCell(o, element, tag0)
  {
    var tmpTag := Replace(tag0, "wd:@@", "@wd:");
    var tag := Replace(tag0, "@@", "");
    var t := "{" + WorkdayNamespace + "}" + Replace(tag, "./wd:", "");
    var elem := GetAttr(element, t);
    if elem.None? {
      var found := o.xpath(element, tmpTag);
      cell := if |found| > 0 then NodeObject(found[0]) else VNone;
    } else {
      cell := VText(elem.value);
    }
  }

  /** The loop over the alternatives of an OR-chain, left by `break` at
      the first one with exactly one result. */
  method RunOrChain(o: Oracle, element: Element, alts: seq<string>, typeCol: string, row0: Row)
    returns (result: Result<(Row, seq<Node>), PyError>)
    requires |alts| > 0
    ensures result == OrChain(o, element, alts, typeCol, row0)
  {
    var rowDict := row0;
    var elem: seq<Node> := [];
    var i := 0;
    while i < |alts|
      invariant i <= |alts|
      invariant i < |alts| ==> OrChain(o, element, alts, typeCol, row0) == OrChain(o, element, alts[i..], typeCol, row0)
      invariant i == |alts| ==> OrChain(o, element, alts, typeCol, row0) == Ok((row0, elem))
      invariant rowDict == row0
    {
      assert alts[i..][0] == alts[i];
      elem := o.xpath(element, alts[i]);
      if |elem| == 1 {
        match elem[0]
        case NStr(_) =>
          return Err(AttributeError);
        case NElem(m) =>
          rowDict := rowDict[typeCol := TextValue(GetAttr(m, TypeKey))];
          break;
      }
      assert alts[i..][1..] == alts[i + 1..];
      i := i + 1;
    }
    return Ok((rowDict, elem));
  }

  /** Storing the results of a plain tag's query under `name`. */
  method StoreFound(name: string, elem: seq<Node>, st: State, allow: bool)
    returns (result: Result<State, PyError>)
    ensures result == Store(name, elem, st, allow)
  {
    if |elem| == 1 {
      return Ok(st.(row := st.row[name := NodeCell(elem[0])]));
    } else if |elem| > 1 {
      if allow {
        var subList: seq<Value> := [];
        for i := 0 to |elem|
          invariant Cells(elem, elem[0].NElem?, i) == Ok(subList)
        {
          CellsStuck(elem, elem[0].NElem?, i + 1, |elem|);
          var e := elem[i];
          if elem[0].NElem? {
            var text :- NodeText(e);
            subList := subList + [text];
          } else {
            subList := subList + [NodeObject(e)];
          }
        }
        return Ok(st.(row := st.row[name := VList(subList)]));
      } else {
        var subList: seq<Row> := [];
        for i := 0 to |elem|
          invariant FanOutRows(st.row, name, elem, i) == Ok(subList)
        {
          FanOutRowsStuck(st.row, name, elem, i + 1, |elem|);
          var rowD := st.row;
          var text :- NodeText(elem[i]);
          rowD := rowD[name := text];
          subList := subList + [rowD];
        }
        return Ok(st.(out := st.out + subList, added := true));
      }
    }
    return Ok(st);
  }

  // An exception ends every loop: once a prefix fails, every longer one
  // fails the same way.

  lemma {:induction false} PullRowsStuck(o: Oracle, elems: seq<Element>, tags: seq<string>, high: Row, allow: bool, i: nat, n: nat)
    requires i <= n <= |elems|
    ensures PullRows(o, elems, tags, high, allow, i).Err? ==>
              PullRows(o, elems, tags, high, allow, n) == PullRows(o, elems, tags, high, allow, i)
    decreases n
  {
    if n > i {
      var m := n - 1;
      PullRowsStuck(o, elems, tags, high, allow, i, m);
      if PullRows(o, elems, tags, high, allow, m).Err? {
        PullRowsErrStep(o, elems, tags, high, allow, n);
      }
    }
  }

  lemma PullRowsErrStep(o: Oracle, elems: seq<Element>, tags: seq<string>, high: Row, allow: bool, n: nat)
    requires 0 < n <= |elems| && PullRows(o, elems, tags, high, allow, n - 1).Err?
    ensures PullRows(o, elems, tags, high, allow, n) == PullRows(o, elems, tags, high, allow, n - 1)
  {
  }

  /** One more match: its flatten error, or its row appended. */
  lemma TildeRowsStep(row: Row, nodes: seq<Node>, flatten: Node -> Result<Row, PyError>, i: nat)
    requires i < |nodes| && TildeRows(row, nodes, flatten, i).Ok?
    ensures TildeRows(row, nodes, flatten, i + 1)
         == (if flatten(nodes[i]).Err? then Err(flatten(nodes[i]).error)
             else Ok(TildeRows(row, nodes, flatten, i).value + [row + flatten(nodes[i]).value]))
  {
  }

  lemma {:induction false} TildeRowsStuck(row: Row, nodes: seq<Node>, flatten: Node -> Result<Row, PyError>, i: nat, n: nat)
    requires i <= n <= |nodes|
    ensures TildeRows(row, nodes, flatten, i).Err? ==> TildeRows(row, nodes, flatten, n) == TildeRows(row, nodes, flatten, i)
    decreases n
  {
    if n > i {
      TildeRowsStuck(row, nodes, flatten, i, n - 1);
    }
  }

  lemma {:induction false} CollectedStuck(nodes: seq<Node>, flatten: Node -> Result<Row, PyError>, i: nat, n: nat)
    requires i <= n <= |nodes|
    ensures Collected(nodes, flatten, i).Err? ==> Collected(nodes, flatten, n) == Collected(nodes, flatten, i)
    decreases n
  {
    if n > i {
      CollectedStuck(nodes, flatten, i, n - 1);
    }
  }

  lemma {:induction false} CellsStuck(nodes: seq<Node>, textual: bool, i: nat, n: nat)
    requires i <= n <= |nodes|
    ensures Cells(nodes, textual, i).Err? ==> Cells(nodes, textual, n) == Cells(nodes, textual, i)
    decreases n
  {
    if n > i {
      CellsStuck(nodes, textual, i, n - 1);
    }
  }

  lemma {:induction false} FanOutRowsStuck(row: Row, name: string, nodes: seq<Node>, i: nat, n: nat)
    requires i <= n <= |nodes|
    ensures FanOutRows(row, name, nodes, i).Err? ==> FanOutRows(row, name, nodes, n) == FanOutRows(row, name, nodes, i)
    decreases n
  {
    if n > i {
      FanOutRowsStuck(row, name, nodes, i, n - 1);
    }
  }

  // ---------------------------------------------------------------------
  // Properties of the branches
  // ---------------------------------------------------------------------

  /** Fanning out succeeds exactly when every result is an element, and
      then gives one copy of the row per result, in order, with `name`
      set to that result's text. */
  lemma {:induction false} FanOutRowsSpec(row: Row, name: string, nodes: seq<Node>, n: nat)
    requires n <= |nodes|
    ensures FanOutRows(row, name, nodes, n).Ok? <==> forall i :: 0 <= i < n ==> nodes[i].NElem?
    ensures FanOutRows(row, name, nodes, n).Ok? ==>
              var rows := FanOutRows(row, name, nodes, n).value;
              |rows| == n && forall i :: 0 <= i < n ==> rows[i] == row[name := TextValue(nodes[i].elem.text)]
  {
    if n > 0 {
      FanOutRowsSpec(row, name, nodes, n - 1);
    }
  }

  /** A collection holds one cell per result, in order: its text when the
      first result is an element (and then every result must be one), the
      result itself otherwise. */
  lemma {:induction false} CellsSpec(nodes: seq<Node>, textual: bool, n: nat)
    requires n <= |nodes|
    ensures Cells(nodes, textual, n).Ok? <==> !textual || forall i :: 0 <= i < n ==> nodes[i].NElem?
    ensures Cells(nodes, textual, n).Ok? ==>
              var cells := Cells(nodes, textual, n).value;
              |cells| == n
              && forall i :: 0 <= i < n ==>
                   cells[i] == if textual then TextValue(nodes[i].elem.text) else NodeObject(nodes[i])
  {
    if n > 0 {
      CellsSpec(nodes, textual, n - 1);
    }
  }

  /** What storing a query's results does to the state: no result leaves
      it unchanged (no column at all), one result sets `name`, several
      results set `name` to a list of one cell each, in order, when
      collections are allowed (texts when the first result is an element,
      which fails on a later string result) and otherwise leave the row alone, append one row per result
      and raise the flag. */
  lemma StoreSpec(name: string, found: seq<Node>, st: State, allow: bool)
    ensures |found| == 0 ==> Store(name, found, st, allow) == Ok(st)
    ensures |found| == 1 ==> Store(name, found, st, allow) == Ok(st.(row := st.row[name := NodeCell(found[0])]))
    ensures |found| > 1 && allow && Store(name, found, st, allow).Ok? ==>
              var st' := Store(name, found, st, allow).value;
              st'.out == st.out && st'.added == st.added && st'.row.Keys == st.row.Keys + {name}
              && st'.row[name].VList? && |st'.row[name].items| == |found|
              && (forall i :: 0 <= i < |found| ==>
                    (found[0].NElem? && found[i].NElem? && st'.row[name].items[i] == TextValue(found[i].elem.text))
                    || (found[0].NStr? && st'.row[name].items[i] == NodeObject(found[i])))
              && forall k :: k in st.row && k != name ==> st'.row[k] == st.row[k]
    ensures |found| > 1 && allow ==>
              (Store(name, found, st, allow).Ok? <==> found[0].NStr? || forall i :: 0 <= i < |found| ==> found[i].NElem?)
    ensures |found| > 1 && !allow ==>
              (Store(name, found, st, allow).Ok? <==> forall i :: 0 <= i < |found| ==> found[i].NElem?)
    ensures |found| > 1 && !allow && Store(name, found, st, allow).Ok? ==>
              var st' := Store(name, found, st, allow).value;
              st'.row == st.row && st'.added
              && |st'.out| == |st.out| + |found| && st'.out[..|st.out|] == st.out
              && forall i :: 0 <= i < |found| ==>
                   st'.out[|st.out| + i] == st.row[name := TextValue(found[i].elem.text)]
  {
    if |found| > 1 {
      if allow {
        CellsSpec(found, found[0].NElem?, |found|);
      } else {
        FanOutRowsSpec(st.row, name, found, |found|);
        if Store(name, found, st, allow).Ok? {
          var rows := FanOutRows(st.row, name, found, |found|).value;
          var st' := Store(name, found, st, allow).value;
          assert st'.out == st.out + rows;
          forall i | 0 <= i < |found|
            ensures st'.out[|st.out| + i] == st.row[name := TextValue(found[i].elem.text)]
          {
            assert st'.out[|st.out| + i] == rows[i];
          }
        }
      }
    }
  }

  /** Every column a flattened query result contributes fits the
      63-character limit. */
  lemma NestedKeysFit(n: Node)
    ensures NestedData(n).Ok? ==> forall k :: k in NestedData(n).value ==> |k| <= DefaultMaxLength
  {
    if n.NElem? {
      FlattenedColumns(n.elem, "", DefaultMaxLength, {});
    }
  }

  /** Fanning a `~` match out succeeds exactly when every match can be
      flattened, and then gives one copy of the row per match, in order,
      updated with that match's cells. */
  lemma {:induction false} TildeRowsSpec(row: Row, nodes: seq<Node>, flatten: Node -> Result<Row, PyError>, n: nat)
    requires n <= |nodes|
    ensures TildeRows(row, nodes, flatten, n).Ok? <==> forall i :: 0 <= i < n ==> flatten(nodes[i]).Ok?
    ensures TildeRows(row, nodes, flatten, n).Ok? ==>
              var rows := TildeRows(row, nodes, flatten, n).value;
              |rows| == n && forall i :: 0 <= i < n ==> rows[i] == row + flatten(nodes[i]).value
  {
    if n > 0 {
      TildeRowsSpec(row, nodes, flatten, n - 1);
    }
  }

  lemma {:induction false} CollectedOk(nodes: seq<Node>, flatten: Node -> Result<Row, PyError>, n: nat)
    requires n <= |nodes|
    ensures Collected(nodes, flatten, n).Ok? <==> forall i :: 0 <= i < n ==> flatten(nodes[i]).Ok?
  {
    if n > 0 {
      CollectedOk(nodes, flatten, n - 1);
    }
  }

  /** One column of the collected lists: present exactly when some match
      has it, with between one and `n` cells. */
  lemma {:induction false} CollectedHas(nodes: seq<Node>, flatten: Node -> Result<Row, PyError>, n: nat, k: string)
    requires n <= |nodes| && Collected(nodes, flatten, n).Ok?
    ensures k in Collected(nodes, flatten, n).value <==>
              exists i :: 0 <= i < n && flatten(nodes[i]).Ok? && k in flatten(nodes[i]).value
    ensures k in Collected(nodes, flatten, n).value ==> 1 <= |Collected(nodes, flatten, n).value[k]| <= n
  {
    if n > 0 {
      CollectedHas(nodes, flatten, n - 1, k);
      var c0 := Collected(nodes, flatten, n - 1).value;
      var d := flatten(nodes[n - 1]).value;
      assert Collected(nodes, flatten, n).value == AddCollected(c0, d);
      if k in d {
        assert flatten(nodes[n - 1]).Ok? && k in flatten(nodes[n - 1]).value;
      }
    }
  }

  /** One collected list holds exactly the matches' values for its key,
      in document order; a key with no value is not collected. */
  lemma {:induction false} CollectedValues(nodes: seq<Node>, flatten: Node -> Result<Row, PyError>, n: nat, k: string)
    requires n <= |nodes| && Collected(nodes, flatten, n).Ok?
    ensures k in Collected(nodes, flatten, n).value <==> |ColumnValues(nodes, flatten, n, k)| > 0
    ensures k in Collected(nodes, flatten, n).value ==>
              Collected(nodes, flatten, n).value[k] == ColumnValues(nodes, flatten, n, k)
  {
    if n > 0 {
      CollectedValues(nodes, flatten, n - 1, k);
      var c0 := Collected(nodes, flatten, n - 1).value;
      var d := flatten(nodes[n - 1]).value;
      assert Collected(nodes, flatten, n).value == AddCollected(c0, d);
    }
  }

  /** Collecting succeeds exactly when every match can be flattened; a
      column is then collected exactly when some match has it, and its
      list holds, in document order, the value of every match that has
      it. */
  lemma CollectedSpec(nodes: seq<Node>, flatten: Node -> Result<Row, PyError>, n: nat)
    requires n <= |nodes|
    ensures Collected(nodes, flatten, n).Ok? <==> forall i :: 0 <= i < n ==> flatten(nodes[i]).Ok?
    ensures Collected(nodes, flatten, n).Ok? ==>
              var c := Collected(nodes, flatten, n).value;
              forall k :: (k in c <==> exists i :: 0 <= i < n && flatten(nodes[i]).Ok? && k in flatten(nodes[i]).value)
                          && (k in c ==> 1 <= |c[k]| <= n && c[k] == ColumnValues(nodes, flatten, n, k))
  {
    CollectedOk(nodes, flatten, n);
    if Collected(nodes, flatten, n).Ok? {
      forall k
        ensures var c := Collected(nodes, flatten, n).value;
                (k in c <==> exists i :: 0 <= i < n && flatten(nodes[i]).Ok? && k in flatten(nodes[i]).value)
                && (k in c ==> 1 <= |c[k]| <= n && c[k] == ColumnValues(nodes, flatten, n, k))
      {
        CollectedHas(nodes, flatten, n, k);
        CollectedValues(nodes, flatten, n, k);
      }
    }
  }

  /** The row after the collected lists are merged into it: the keys of
      the row and of the matches, each matched key holding its list. */
  lemma MergedLists(row: Row, nodes: seq<Node>, flatten: Node -> Result<Row, PyError>, n: nat, c: map<string, seq<Value>>)
    requires n <= |nodes| && Collected(nodes, flatten, n) == Ok(c)
    ensures forall k :: k in row + AsLists(c) <==>
              k in row || exists i :: 0 <= i < n && flatten(nodes[i]).Ok? && k in flatten(nodes[i]).value
    ensures forall k :: |ColumnValues(nodes, flatten, n, k)| > 0 ==>
              k in row + AsLists(c) && (row + AsLists(c))[k] == VList(ColumnValues(nodes, flatten, n, k))
    ensures forall k :: |ColumnValues(nodes, flatten, n, k)| == 0 && k in row ==>
              k in row + AsLists(c) && (row + AsLists(c))[k] == row[k]
  {
    var merged := row + AsLists(c);
    forall k
      ensures (k in merged <==> k in row || exists i :: 0 <= i < n && flatten(nodes[i]).Ok? && k in flatten(nodes[i]).value)
              && (|ColumnValues(nodes, flatten, n, k)| > 0 ==>
                    k in merged && merged[k] == VList(ColumnValues(nodes, flatten, n, k)))
              && (|ColumnValues(nodes, flatten, n, k)| == 0 && k in row ==> k in merged && merged[k] == row[k])
    {
      CollectedHas(nodes, flatten, n, k);
      CollectedValues(nodes, flatten, n, k);
    }
  }

  /** What a `~` tag does: the flag is always raised; no match stores
      `None` under the raw tag; one match merges its flattened cells into
      the row. Several matches are `FlattenAllCollect` and
      `FlattenAllFanOut`. */
  lemma FlattenAllSpec(o: Oracle, e: Element, tag: string, st: State, allow: bool)
    ensures FlattenAll(o, e, tag, st, allow).Ok? ==> FlattenAll(o, e, tag, st, allow).value.added
    ensures |TildeQuery(o, e, tag)| == 0 ==>
              FlattenAll(o, e, tag, st, allow) == Ok(State(st.row[tag := VNone], true, st.out))
    ensures |TildeQuery(o, e, tag)| == 1 && NestedData(TildeQuery(o, e, tag)[0]).Ok? ==>
              FlattenAll(o, e, tag, st, allow)
              == Ok(State(st.row + NestedData(TildeQuery(o, e, tag)[0]).value, true, st.out))
  {
  }

  /** Several matches with lists allowed: nothing is appended, the row
      gains exactly the keys of the flattened matches, and each such key
      holds the list of the matches' values for it, in document order,
      replacing whatever the row held. */
  lemma FlattenAllCollect(o: Oracle, e: Element, tag: string, st: State, st': State)
    requires |TildeQuery(o, e, tag)| > 1 && FlattenAll(o, e, tag, st, true) == Ok(st')
    ensures st'.out == st.out
    ensures forall k :: k in st'.row <==>
              k in st.row || exists i :: 0 <= i < |TildeQuery(o, e, tag)| && NestedData(TildeQuery(o, e, tag)[i]).Ok?
                                         && k in NestedData(TildeQuery(o, e, tag)[i]).value
    ensures var elems := TildeQuery(o, e, tag);
            forall k :: |ColumnValues(elems, NestedData, |elems|, k)| > 0 ==>
              k in st'.row && st'.row[k] == VList(ColumnValues(elems, NestedData, |elems|, k))
    ensures var elems := TildeQuery(o, e, tag);
            forall k :: |ColumnValues(elems, NestedData, |elems|, k)| == 0 && k in st.row ==> k in st'.row && st'.row[k] == st.row[k]
  {
    var elems := TildeQuery(o, e, tag);
    var c := Collected(elems, NestedData, |elems|).value;
    assert st'.row == st.row + AsLists(c);
    MergedLists(st.row, elems, NestedData, |elems|, c);
  }

  /** Several matches without lists: the row is kept and one row per
      match, the current row merged with that match's cells, is appended
      in order. */
  lemma FlattenAllFanOut(o: Oracle, e: Element, tag: string, st: State)
    requires |TildeQuery(o, e, tag)| > 1 && FlattenAll(o, e, tag, st, false).Ok?
    ensures var elems := TildeQuery(o, e, tag);
            var st' := FlattenAll(o, e, tag, st, false).value;
            st'.row == st.row && |st'.out| == |st.out| + |elems| && st'.out[..|st.out|] == st.out
            && forall i :: 0 <= i < |elems| ==>
                 NestedData(elems[i]).Ok? && st'.out[|st.out| + i] == st.row + NestedData(elems[i]).value
  {
    var elems := TildeQuery(o, e, tag);
    var st' := FlattenAll(o, e, tag, st, false).value;
    TildeRowsSpec(st.row, elems, NestedData, |elems|);
    var rows := TildeRows(st.row, elems, NestedData, |elems|).value;
    assert st'.out == st.out + rows;
    forall i | 0 <= i < |elems|
      ensures st'.out[|st.out| + i] == st.row + NestedData(elems[i]).value
    {
      assert st'.out[|st.out| + i] == rows[i];
    }
  }

  /** `^^` splits a tag into its query and its column name, neither of
      which holds `^^`; a second `^^` is an unpacking error; a tag without
      `^^` names its own column. */
  lemma SplitRenameSpec(tag0: string)
    ensures !Contains(tag0, "^^") ==> SplitRename(tag0) == Ok((tag0, tag0))
    ensures Contains(tag0, "^^") ==> (SplitRename(tag0).Err? <==> |Split(tag0, "^^")| > 2)
    ensures Contains(tag0, "^^") && SplitRename(tag0).Ok? ==>
              var (tag, name) := SplitRename(tag0).value;
              tag0 == tag + "^^" + name && !Contains(tag, "^^") && !Contains(name, "^^")
  {
    if Contains(tag0, "^^") {
      var parts := Split(tag0, "^^");
      var i := IndexOf(tag0, "^^").value;
      assert parts == [tag0[..i]] + Split(tag0[i + 2..], "^^");
      if |parts| == 2 {
        JoinSplit(tag0, "^^");
        JoinCons("^^", parts[0], parts[1..]);
        assert [parts[0]] + parts[1..] == parts;
        SplitPieceFree(tag0, "^^", 0);
        SplitPieceFree(tag0, "^^", 1);
      }
    }
  }

  /** `@@name`, prepared as `./wd:@@name`, reads the attribute
      `{urn:com.workday/bsvc}name` of the element; when the element has no
      such attribute, the first result of the XPath `./@wd:name`; when
      that has none either, `None`. */
  lemma AttributeCellPlain(o: Oracle, e: Element, name: string)
    requires '@' !in name && !Contains(name, WdStep)
    ensures var key := "{" + WorkdayNamespace + "}" + name;
            var query := "./@wd:" + name;
            var cell := AttributeCell(o, e, WdStep + "@@" + name);
            (GetAttr(e, key).Some? ==> cell == VText(GetAttr(e, key).value))
            && (GetAttr(e, key).None? && |o.xpath(e, query)| > 0 ==> cell == NodeObject(o.xpath(e, query)[0]))
            && (GetAttr(e, key).None? && |o.xpath(e, query)| == 0 ==> cell == VNone)
  {
    AttributeTagParts(name);
  }

  /** `path>>@@name`, prepared as `./wd:path/wd:@@name`, looks up the
      attribute named `{urn:com.workday/bsvc}path/wd:name` first, then
      falls back to the first result of `./wd:path/@wd:name`, then
      `None`. */
  lemma AttributeCellNested(o: Oracle, e: Element, path: string, name: string)
    requires '@' !in path && '@' !in name && !Contains(path + "/wd:" + name, WdStep)
    ensures var key := "{" + WorkdayNamespace + "}" + path + "/wd:" + name;
            var query := WdStep + path + "/@wd:" + name;
            var cell := AttributeCell(o, e, WdStep + path + "/wd:@@" + name);
            (GetAttr(e, key).Some? ==> cell == VText(GetAttr(e, key).value))
            && (GetAttr(e, key).None? && |o.xpath(e, query)| > 0 ==> cell == NodeObject(o.xpath(e, query)[0]))
            && (GetAttr(e, key).None? && |o.xpath(e, query)| == 0 ==> cell == VNone)
  {
    NestedAttributeTagParts(path, name);
    assert "{" + WorkdayNamespace + "}" + (path + "/wd:" + name)
           == "{" + WorkdayNamespace + "}" + path + "/wd:" + name;
  }

  /** The direct lookup of a nested `@@` tag asks for an attribute whose
      local name holds `/`, which no attribute has when namespaces hold no
      `}`: such a tag always reads the XPath fallback. */
  lemma NestedAttributeNotDirect(e: Element, path: string, name: string)
    requires forall i :: 0 <= i < |e.attrs| ==> '}' !in e.attrs[i].name.ns && '/' !in e.attrs[i].name.local
    ensures GetAttr(e, "{" + WorkdayNamespace + "}" + path + "/wd:" + name).None?
  {
    var rest := path + "/wd:" + name;
    assert rest[|path|] == '/';
    assert '}' !in WorkdayNamespace;
    forall i | 0 <= i < |e.attrs|
      ensures Clark(e.attrs[i].name) != "{" + WorkdayNamespace + "}" + path + "/wd:" + name
    {
      ClarkNotSlashed(e.attrs[i].name, WorkdayNamespace, rest);
      assert "{" + WorkdayNamespace + "}" + rest == "{" + WorkdayNamespace + "}" + path + "/wd:" + name;
    }
  }

  /** A Clark name whose namespace has no `}` and whose local name has no
      `/` is never `{ns}rest` for a `rest` holding `/`. */
  lemma ClarkNotSlashed(q: QName, ns: string, rest: string)
    requires '}' !in q.ns && '/' !in q.local && '}' !in ns && '/' in rest
    ensures Clark(q) != "{" + ns + "}" + rest
  {
    var key := "{" + ns + "}" + rest;
    var c := Clark(q);
    if q.ns == "" {
      assert '/' in key;
    } else if |q.ns| < |ns| {
      assert c[1 + |q.ns|] == '}';
      assert key[1 + |q.ns|] == ns[|q.ns|];
    } else if |q.ns| > |ns| {
      assert c[1 + |ns|] == q.ns[|ns|];
      assert key[1 + |ns|] == '}';
    } else if q.ns != ns {
      var k :| 0 <= k < |ns| && q.ns[k] != ns[k];
      assert c[1 + k] == q.ns[k];
      assert key[1 + k] == ns[k];
    } else {
      assert c[2 + |ns|..] == q.local;
      assert key[2 + |ns|..] == rest;
    }
  }

  /** A plain `@@name` tag stores that cell under the prepared tag and
      changes nothing else. */
  lemma PlainTagAttribute(o: Oracle, e: Element, name: string, st: State, allow: bool)
    requires '>' !in name && '|' !in name && '^' !in name
    ensures PrepareTag("@@" + name) == WdStep + "@@" + name
    ensures PlainTag(o, e, WdStep + "@@" + name, st, allow)
            == Ok(st.(row := st.row[WdStep + "@@" + name := AttributeCell(o, e, WdStep + "@@" + name)]))
  {
    PrepareAttributeTag(name);
    NoCharOf(WdStep + "@@" + name, "^^", '^');
    AttributeTagIsPlain(WdStep + "@@" + name, |WdStep|);
  }

  /** A nested `path>>@@name` tag stores its cell under the prepared tag
      and changes nothing else. */
  lemma PlainTagNestedAttribute(o: Oracle, e: Element, path: string, name: string, st: State, allow: bool)
    requires path == [] || path[|path| - 1] != '>'
    requires '|' !in path && '^' !in path
    requires '>' !in name && '|' !in name && '^' !in name
    ensures PrepareTag(path + ">>@@" + name) == WdStep + PathSteps(path) + "/wd:@@" + name
    ensures var tag := WdStep + PathSteps(path) + "/wd:@@" + name;
            PlainTag(o, e, tag, st, allow) == Ok(st.(row := st.row[tag := AttributeCell(o, e, tag)]))
  {
    PrepareNestedAttributeTag(path, name);
    var steps := PathSteps(path);
    PathStepsChars(path, '^');
    NoCharOf(WdStep + steps + "/wd:@@" + name, "^^", '^');
    AttributeTagIsPlain(WdStep + steps + "/wd:@@" + name, |WdStep| + |steps| + 4);
  }

  /** A tag with `@@` and no `^^` takes the attribute branch under its own
      name. */
  lemma AttributeTagIsPlain(tag: string, at: nat)
    requires at + 2 <= |tag| && tag[at] == '@' && tag[at + 1] == '@' && !Contains(tag, "^^")
    ensures forall o, e, st, allow ::
              PlainTag(o, e, tag, st, allow) == Ok(st.(row := st.row[tag := AttributeCell(o, e, tag)]))
  {
    ContainsIff(tag, "@@");
    assert OccursAt(tag, "@@", at);
  }

  /** The OR-chain stops at the first alternative with exactly one
      result: the result is decided by that alternative alone (its
      `wd:type` stored under `typeCol`, or an error for a string result),
      and the alternatives after it are never queried. */
  lemma {:induction false} OrChainFirstMatch(o: Oracle, e: Element, alts: seq<string>, typeCol: string, row: Row, j: nat)
    requires j < |alts|
    requires forall i :: 0 <= i < j ==> |o.xpath(e, alts[i])| != 1
    requires |o.xpath(e, alts[j])| == 1
    ensures OrChain(o, e, alts, typeCol, row) == OrChain(o, e, alts[..j + 1], typeCol, row)
    ensures OrChain(o, e, alts, typeCol, row)
            == match o.xpath(e, alts[j])[0]
               case NStr(_) => Err(AttributeError)
               case NElem(m) => Ok((row[typeCol := TextValue(GetAttr(m, TypeKey))], o.xpath(e, alts[j])))
    decreases j
  {
    if j > 0 {
      OrChainFirstMatch(o, e, alts[1..], typeCol, row, j - 1);
      assert alts[..j + 1][1..] == alts[1..][..j];
    }
  }

  /** When no alternative has exactly one result the row is unchanged and
      the results of the LAST alternative are what gets stored. */
  lemma {:induction false} OrChainNoMatch(o: Oracle, e: Element, alts: seq<string>, typeCol: string, row: Row)
    requires |alts| > 0
    requires forall i :: 0 <= i < |alts| ==> |o.xpath(e, alts[i])| != 1
    ensures OrChain(o, e, alts, typeCol, row) == Ok((row, o.xpath(e, alts[|alts| - 1])))
    decreases |alts|
  {
    if |alts| > 1 {
      OrChainNoMatch(o, e, alts[1..], typeCol, row);
    }
  }

  /** A matched OR-chain writes two cells: the `wd:type` under the `|=`
      column and the matched element's text under the tag's own column,
      which is the raw tag string when there is no `^^`. */
  lemma PlainTagOrChain(o: Oracle, e: Element, tag0: string, st: State, allow: bool, j: nat, m: Element)
    requires !Contains(tag0, "^^") && !Contains(tag0, "@@") && '%' !in tag0 && Contains(tag0, "||")
    requires |Split(tag0, "|=")| >= 2
    requires var alts := Split(Replace(tag0, "|=" + Split(tag0, "|=")[1], ""), "||");
             j < |alts| && (forall i :: 0 <= i < j ==> |o.xpath(e, alts[i])| != 1)
             && o.xpath(e, alts[j]) == [NElem(m)]
    ensures PlainTag(o, e, tag0, st, allow)
            == Ok(st.(row := st.row[Split(tag0, "|=")[1] := TextValue(GetAttr(m, TypeKey))][tag0 := TextValue(m.text)]))
  {
    var typeCol := Split(tag0, "|=")[1];
    var alts := Split(Replace(tag0, "|=" + typeCol, ""), "||");
    SplitRenameSpec(tag0);
    OrChainFirstMatch(o, e, alts, typeCol, st.row, j);
  }

  /** The OR-chain only ever adds the type column, and the results it
      returns are those of one of its alternatives. */
  lemma {:induction false} OrChainResult(o: Oracle, e: Element, alts: seq<string>, typeCol: string, row: Row)
    requires |alts| > 0
    ensures OrChain(o, e, alts, typeCol, row).Ok? ==>
              var (row', found) := OrChain(o, e, alts, typeCol, row).value;
              row.Keys <= row'.Keys && exists j :: 0 <= j < |alts| && found == o.xpath(e, alts[j])
    decreases |alts|
  {
    if |o.xpath(e, alts[0])| != 1 && |alts| > 1 {
      OrChainResult(o, e, alts[1..], typeCol, row);
      if OrChain(o, e, alts, typeCol, row).Ok? {
        var found := OrChain(o, e, alts, typeCol, row).value.1;
        var j :| 0 <= j < |alts| - 1 && found == o.xpath(e, alts[1..][j]);
        assert found == o.xpath(e, alts[j + 1]);
      }
    } else {
      assert OrChain(o, e, alts, typeCol, row).Ok? ==> OrChain(o, e, alts, typeCol, row).value.1 == o.xpath(e, alts[0]);
    }
  }

  // ---------------------------------------------------------------------
  // Properties of the whole engine
  // ---------------------------------------------------------------------

  /** Every row of `rows` has every column of `keys`. */
  predicate AllHave(rows: seq<Row>, keys: set<string>) {
    forall i :: 0 <= i < |rows| ==> keys <= rows[i].Keys
  }

  lemma AllHaveConcat(a: seq<Row>, b: seq<Row>, keys: set<string>)
    requires AllHave(a, keys) && AllHave(b, keys)
    ensures AllHave(a + b, keys)
  {
    forall i | 0 <= i < |a + b|
      ensures keys <= (a + b)[i].Keys
    {
      if i >= |a| {
        assert (a + b)[i] == b[i - |a|];
      }
    }
  }

  /** Rows appended after `out`, each of which has `keys`, keep
      `AllHave`. */
  lemma AppendedHave(out: seq<Row>, out': seq<Row>, keys: set<string>)
    requires AllHave(out, keys) && |out| <= |out'| && out'[..|out|] == out
    requires AllHave(out'[|out|..], keys)
    ensures AllHave(out', keys)
  {
    assert out' == out + out'[|out|..];
    AllHaveConcat(out, out'[|out|..], keys);
  }

  lemma StoreKeeps(name: string, found: seq<Node>, st: State, allow: bool, keys: set<string>)
    requires keys <= st.row.Keys && AllHave(st.out, keys)
    ensures Store(name, found, st, allow).Ok? ==>
              keys <= Store(name, found, st, allow).value.row.Keys && AllHave(Store(name, found, st, allow).value.out, keys)
  {
    StoreSpec(name, found, st, allow);
    if |found| > 1 && !allow && Store(name, found, st, allow).Ok? {
      var out' := Store(name, found, st, allow).value.out;
      forall i | 0 <= i < |out'| - |st.out|
        ensures keys <= out'[|st.out|..][i].Keys
      {
        assert out'[|st.out|..][i] == out'[|st.out| + i] == st.row[name := TextValue(found[i].elem.text)];
      }
      AppendedHave(st.out, out', keys);
    }
  }

  lemma FlattenAllKeeps(o: Oracle, e: Element, tag: string, st: State, allow: bool, keys: set<string>)
    requires keys <= st.row.Keys && AllHave(st.out, keys)
    ensures FlattenAll(o, e, tag, st, allow).Ok? ==>
              keys <= FlattenAll(o, e, tag, st, allow).value.row.Keys && AllHave(FlattenAll(o, e, tag, st, allow).value.out, keys)
  {
    FlattenAllSpec(o, e, tag, st, allow);
    if |TildeQuery(o, e, tag)| > 1 && allow && FlattenAll(o, e, tag, st, allow).Ok? {
      FlattenAllCollect(o, e, tag, st, FlattenAll(o, e, tag, st, allow).value);
    }
    if |TildeQuery(o, e, tag)| > 1 && !allow && FlattenAll(o, e, tag, st, allow).Ok? {
      FlattenAllFanOut(o, e, tag, st);
      var out' := FlattenAll(o, e, tag, st, allow).value.out;
      forall i | 0 <= i < |out'| - |st.out|
        ensures keys <= out'[|st.out|..][i].Keys
      {
        var elems := TildeQuery(o, e, tag);
        assert out'[|st.out|..][i] == out'[|st.out| + i] == st.row + NestedData(elems[i]).value;
      }
      AppendedHave(st.out, out', keys);
    }
  }

  lemma PlainTagKeeps(o: Oracle, e: Element, tag: string, st: State, allow: bool, keys: set<string>)
    requires keys <= st.row.Keys && AllHave(st.out, keys)
    ensures PlainTag(o, e, tag, st, allow).Ok? ==>
              keys <= PlainTag(o, e, tag, st, allow).value.row.Keys && AllHave(PlainTag(o, e, tag, st, allow).value.out, keys)
  {
    if PlainTag(o, e, tag, st, allow).Ok? {
      var renamed := SplitRename(tag).value;
      if !Contains(renamed.0, "@@") {
        var query := if '%' in renamed.0 then ExpandedTag(renamed.0) else renamed.0;
        if Contains(query, "||") {
          var typename := Split(query, "|=");
          OrChainResult(o, e, Split(Replace(query, "|=" + typename[1], ""), "||"), typename[1], st.row);
        }
        var looked := Lookup(o, e, query, st.row).value;
        StoreKeeps(renamed.1, looked.1, st.(row := looked.0), allow, keys);
      }
    }
  }

  /** A tag never removes a column from the row, and every row it appends
      extends the row. */
  lemma TagStepKeeps(o: Oracle, e: Element, tag: string, st: State, allow: bool, keys: set<string>)
    requires keys <= st.row.Keys && AllHave(st.out, keys)
    ensures TagStep(o, e, tag, st, allow).Ok? ==>
              keys <= TagStep(o, e, tag, st, allow).value.row.Keys && AllHave(TagStep(o, e, tag, st, allow).value.out, keys)
  {
    if '~' in tag {
      FlattenAllKeeps(o, e, tag, st, allow, keys);
    } else {
      PlainTagKeeps(o, e, tag, st, allow, keys);
    }
  }

  /** Every row `_pull_data` returns carries every inherited column:
      rows start as copies of `high`, tags only add columns, and a nested
      group inherits the row it was reached with. */
  lemma {:induction false} PullRowsKeep(o: Oracle, elems: seq<Element>, tags: seq<string>, high: Row, allow: bool, n: nat,
                                        keys: set<string>)
    requires n <= |elems| && keys <= high.Keys
    ensures PullRows(o, elems, tags, high, allow, n).Ok? ==> AllHave(PullRows(o, elems, tags, high, allow, n).value, keys)
    decreases |tags|, 1, n
  {
    if n > 0 && PullRows(o, elems, tags, high, allow, n).Ok? {
      PullRowsKeep(o, elems, tags, high, allow, n - 1, keys);
      var out := PullRows(o, elems, tags, high, allow, n - 1).value;
      RunTagsKeep(o, elems[n - 1], tags, 0, State(high, false, out), allow, keys);
      var st := RunTags(o, elems[n - 1], tags, 0, State(high, false, out), allow).value;
      if !st.added {
        AllHaveConcat(st.out, [st.row], keys);
      }
    }
  }

  lemma {:induction false} RunTagsKeep(o: Oracle, e: Element, tags: seq<string>, k: nat, st: State, allow: bool,
                                       keys: set<string>)
    requires k <= |tags| && keys <= st.row.Keys && AllHave(st.out, keys)
    ensures RunTags(o, e, tags, k, st, allow).Ok? ==>
              keys <= RunTags(o, e, tags, k, st, allow).value.row.Keys && AllHave(RunTags(o, e, tags, k, st, allow).value.out, keys)
    decreases |tags|, 0, |tags| - k
  {
    if k < |tags| {
      if '*' in tags[k] {
        var elements := o.findall(e, "./" + Replace(tags[k], "*", ""));
        AfterShorter(tags, tags[k]);
        PullRowsKeep(o, elements, After(tags, tags[k]), st.row, allow, |elements|, keys);
        if RunTags(o, e, tags, k, st, allow).Ok? {
          AllHaveConcat(st.out, PullRows(o, elements, After(tags, tags[k]), st.row, allow, |elements|).value, keys);
        }
      } else {
        TagStepKeeps(o, e, tags[k], st, allow, keys);
        if TagStep(o, e, tags[k], st, allow).Ok? {
          RunTagsKeep(o, e, tags, k + 1, TagStep(o, e, tags[k], st, allow).value, allow, keys);
        }
      }
    }
  }

  /** The results a plain tag stores for element `e`: those of its
      query or of the last alternative its OR-chain tried. An `@@` tag
      and a tag that fails before its query store no results. */
  function PlainFound(o: Oracle, e: Element, tag0: string): seq<Node> {
    match SplitRename(tag0)
    case Err(_) => []
    case Ok(renamed) =>
      if Contains(renamed.0, "@@") then []
      else
        var query := if '%' in renamed.0 then ExpandedTag(renamed.0) else renamed.0;
        match Lookup(o, e, query, map[])
        case Err(_) => []
        case Ok(looked) => looked.1
  }

  /** The OR-chain's outcome and results do not depend on the row it is
      given. */
  lemma {:induction false} OrChainAnyRow(o: Oracle, e: Element, alts: seq<string>, typeCol: string, row: Row, row': Row)
    requires |alts| > 0
    ensures OrChain(o, e, alts, typeCol, row).Ok? == OrChain(o, e, alts, typeCol, row').Ok?
    ensures OrChain(o, e, alts, typeCol, row).Ok? ==>
              OrChain(o, e, alts, typeCol, row).value.1 == OrChain(o, e, alts, typeCol, row').value.1
    decreases |alts|
  {
    if |o.xpath(e, alts[0])| != 1 && |alts| > 1 {
      OrChainAnyRow(o, e, alts[1..], typeCol, row, row');
    }
  }

  lemma LookupAnyRow(o: Oracle, e: Element, tag: string, row: Row, row': Row)
    ensures Lookup(o, e, tag, row).Ok? == Lookup(o, e, tag, row').Ok?
    ensures Lookup(o, e, tag, row).Ok? ==> Lookup(o, e, tag, row).value.1 == Lookup(o, e, tag, row').value.1
  {
    if Contains(tag, "||") {
      var typename := Split(tag, "|=");
      if |typename| >= 2 {
        OrChainAnyRow(o, e, Split(Replace(tag, "|=" + typename[1], ""), "||"), typename[1], row, row');
      }
    }
  }

  /** Every plain tag from index `k` on yields at most one result for
      element `e`, so none of them fans out. */
  predicate SingleValuedAt(o: Oracle, e: Element, tags: seq<string>, k: nat) {
    forall j :: k <= j < |tags| && '*' !in tags[j] && '~' !in tags[j] ==> |PlainFound(o, e, tags[j])| <= 1
  }

  /** No tag from index `k` on opens a nested group or flattens a subtree. */
  predicate FlatFrom(tags: seq<string>, k: nat) {
    forall j :: k <= j < |tags| ==> '*' !in tags[j] && '~' !in tags[j]
  }

  /** A plain tag keeps the flag raised, and raises it or appends rows
      only by fanning out several results. */
  lemma PlainTagFlag(o: Oracle, e: Element, tag: string, st: State, allow: bool)
    ensures PlainTag(o, e, tag, st, allow).Ok? && st.added ==> PlainTag(o, e, tag, st, allow).value.added
    ensures PlainTag(o, e, tag, st, allow).Ok? && (allow || |PlainFound(o, e, tag)| <= 1) ==>
              PlainTag(o, e, tag, st, allow).value.added == st.added && PlainTag(o, e, tag, st, allow).value.out == st.out
  {
    if PlainTag(o, e, tag, st, allow).Ok? {
      var renamed := SplitRename(tag).value;
      if !Contains(renamed.0, "@@") {
        var query := if '%' in renamed.0 then ExpandedTag(renamed.0) else renamed.0;
        LookupAnyRow(o, e, query, st.row, map[]);
        var looked := Lookup(o, e, query, st.row).value;
        assert looked.1 == PlainFound(o, e, tag);
        StoreSpec(renamed.1, looked.1, st.(row := looked.0), allow);
      }
    }
  }

  /** The flag is never lowered; a `~` tag always raises it; a plain tag
      raises it or appends rows only by fanning out several results. */
  lemma TagStepFlag(o: Oracle, e: Element, tag: string, st: State, allow: bool)
    ensures TagStep(o, e, tag, st, allow).Ok? && st.added ==> TagStep(o, e, tag, st, allow).value.added
    ensures TagStep(o, e, tag, st, allow).Ok? && '~' in tag ==> TagStep(o, e, tag, st, allow).value.added
    ensures TagStep(o, e, tag, st, allow).Ok? && '~' !in tag && (allow || |PlainFound(o, e, tag)| <= 1) ==>
              TagStep(o, e, tag, st, allow).value.added == st.added && TagStep(o, e, tag, st, allow).value.out == st.out
  {
    if '~' in tag {
      FlattenAllSpec(o, e, tag, st, allow);
    } else {
      PlainTagFlag(o, e, tag, st, allow);
    }
  }

  /** Over the rest of the tag list: the flag is never lowered; it ends
      raised when some remaining tag has `*` or `~`; and when none has and
      no fan-out can happen, neither the flag nor the output changes. */
  lemma {:induction false} RunTagsFlag(o: Oracle, e: Element, tags: seq<string>, k: nat, st: State, allow: bool)
    requires k <= |tags|
    ensures RunTags(o, e, tags, k, st, allow).Ok? && st.added ==> RunTags(o, e, tags, k, st, allow).value.added
    ensures RunTags(o, e, tags, k, st, allow).Ok? && !FlatFrom(tags, k) ==> RunTags(o, e, tags, k, st, allow).value.added
    ensures RunTags(o, e, tags, k, st, allow).Ok? && FlatFrom(tags, k) && (allow || SingleValuedAt(o, e, tags, k)) ==>
              RunTags(o, e, tags, k, st, allow).value.added == st.added && RunTags(o, e, tags, k, st, allow).value.out == st.out
    decreases |tags| - k
  {
    if k < |tags| && '*' !in tags[k] {
      TagStepFlag(o, e, tags[k], st, allow);
      if TagStep(o, e, tags[k], st, allow).Ok? {
        var st' := TagStep(o, e, tags[k], st, allow).value;
        RunTagsFlag(o, e, tags, k + 1, st', allow);
        if !FlatFrom(tags, k) && '~' !in tags[k] {
          var j :| k <= j < |tags| && ('*' in tags[j] || '~' in tags[j]);
          assert !FlatFrom(tags, k + 1);
        }
      }
    }
  }

  /** The quirk of `~` and `*`: an element's own row is appended exactly
      when no tag has `*` or `~`, provided no plain tag fans out. */
  lemma ElementOwnRow(o: Oracle, e: Element, tags: seq<string>, high: Row, allow: bool, out: seq<Row>)
    requires allow || SingleValuedAt(o, e, tags, 0)
    ensures RunTags(o, e, tags, 0, State(high, false, out), allow).Ok? ==>
              (RunTags(o, e, tags, 0, State(high, false, out), allow).value.added
               <==> exists j :: 0 <= j < |tags| && ('*' in tags[j] || '~' in tags[j]))
  {
    RunTagsFlag(o, e, tags, 0, State(high, false, out), allow);
  }

  // The output list is threaded through the tag loop, but nothing a tag
  // does depends on what is already in it.

  /** A state with `pre` put in front of its output list. */
  function Shifted(r: Result<State, PyError>, pre: seq<Row>): Result<State, PyError> {
    match r
    case Err(x) => Err(x)
    case Ok(st) => Ok(st.(out := pre + st.out))
  }

  lemma StoreShift(name: string, found: seq<Node>, st: State, allow: bool, pre: seq<Row>)
    ensures Store(name, found, st.(out := pre + st.out), allow) == Shifted(Store(name, found, st, allow), pre)
  {
    if |found| > 1 && !allow && Store(name, found, st, allow).Ok? {
      var rows := FanOutRows(st.row, name, found, |found|).value;
      assert (pre + st.out) + rows == pre + (st.out + rows);
    }
  }

  lemma FlattenAllShift(o: Oracle, e: Element, tag: string, st: State, allow: bool, pre: seq<Row>)
    ensures FlattenAll(o, e, tag, st.(out := pre + st.out), allow) == Shifted(FlattenAll(o, e, tag, st, allow), pre)
  {
    var elems := TildeQuery(o, e, tag);
    if |elems| > 1 && !allow && FlattenAll(o, e, tag, st, allow).Ok? {
      var rows := TildeRows(st.row, elems, NestedData, |elems|).value;
      assert (pre + st.out) + rows == pre + (st.out + rows);
    }
  }

  lemma PlainTagShift(o: Oracle, e: Element, tag: string, st: State, allow: bool, pre: seq<Row>)
    ensures PlainTag(o, e, tag, st.(out := pre + st.out), allow) == Shifted(PlainTag(o, e, tag, st, allow), pre)
  {
    if SplitRename(tag).Ok? {
      var renamed := SplitRename(tag).value;
      if !Contains(renamed.0, "@@") {
        var query := if '%' in renamed.0 then ExpandedTag(renamed.0) else renamed.0;
        if Lookup(o, e, query, st.row).Ok? {
          var looked := Lookup(o, e, query, st.row).value;
          StoreShift(renamed.1, looked.1, st.(row := looked.0), allow, pre);
        }
      }
    }
  }

  lemma {:induction false} RunTagsShift(o: Oracle, e: Element, tags: seq<string>, k: nat, st: State, allow: bool, pre: seq<Row>)
    requires k <= |tags|
    ensures RunTags(o, e, tags, k, st.(out := pre + st.out), allow) == Shifted(RunTags(o, e, tags, k, st, allow), pre)
    decreases |tags| - k
  {
    if k < |tags| {
      if '*' in tags[k] {
        var elements := o.findall(e, "./" + Replace(tags[k], "*", ""));
        AfterShorter(tags, tags[k]);
        var sub := PullRows(o, elements, After(tags, tags[k]), st.row, allow, |elements|);
        if sub.Ok? {
          assert (pre + st.out) + sub.value == pre + (st.out + sub.value);
        }
      } else {
        if '~' in tags[k] {
          FlattenAllShift(o, e, tags[k], st, allow, pre);
        } else {
          PlainTagShift(o, e, tags[k], st, allow, pre);
        }
        if TagStep(o, e, tags[k], st, allow).Ok? {
          RunTagsShift(o, e, tags, k + 1, TagStep(o, e, tags[k], st, allow).value, allow, pre);
        }
      }
    }
  }

  /** The rows one element contributes: what its tags append, then its
      own row unless the flag was raised. */
  function ElementRows(o: Oracle, e: Element, tags: seq<string>, high: Row, allow: bool): Result<seq<Row>, PyError> {
    var st :- RunTags(o, e, tags, 0, State(high, false, []), allow);
    Ok(if st.added then st.out else st.out + [st.row])
  }

  /** The output is the concatenation of the elements' contributions, in
      input order; the first failing element decides the exception. */
  lemma PullRowsStep(o: Oracle, elems: seq<Element>, tags: seq<string>, high: Row, allow: bool, n: nat)
    requires 0 < n <= |elems|
    ensures PullRows(o, elems, tags, high, allow, n)
            == match PullRows(o, elems, tags, high, allow, n - 1)
               case Err(x) => Err(x)
               case Ok(out) =>
                 match ElementRows(o, elems[n - 1], tags, high, allow)
                 case Err(x) => Err(x)
                 case Ok(rows) => Ok(out + rows)
  {
    if PullRows(o, elems, tags, high, allow, n - 1).Ok? {
      var out := PullRows(o, elems, tags, high, allow, n - 1).value;
      RunTagsShift(o, elems[n - 1], tags, 0, State(high, false, []), allow, out);
      assert State(high, false, []).(out := out + []) == State(high, false, out);
      var r := RunTags(o, elems[n - 1], tags, 0, State(high, false, []), allow);
      if r.Ok? {
        assert out + (r.value.out + [r.value.row]) == (out + r.value.out) + [r.value.row];
      }
    }
  }

  /** Without `*` or `~` and without fan-out an element contributes its
      own row and nothing else. */
  lemma ElementSingleRow(o: Oracle, e: Element, tags: seq<string>, high: Row, allow: bool)
    requires FlatFrom(tags, 0) && (allow || SingleValuedAt(o, e, tags, 0))
    ensures ElementRows(o, e, tags, high, allow).Ok? ==>
              ElementRows(o, e, tags, high, allow).value == [RunTags(o, e, tags, 0, State(high, false, []), allow).value.row]
  {
    RunTagsFlag(o, e, tags, 0, State(high, false, []), allow);
  }

  /** A list built by appending one contribution per step, where every
      contribution that succeeds is a single row, holds one row per step. */
  lemma {:induction false} OneRowEach(pull: nat -> Result<seq<Row>, PyError>, each: nat -> Result<seq<Row>, PyError>, n: nat)
    requires pull(0) == Ok([])
    requires forall m :: 0 < m <= n ==>
               pull(m) == match pull(m - 1)
                          case Err(x) => Err(x)
                          case Ok(out) =>
                            match each(m - 1)
                            case Err(x) => Err(x)
                            case Ok(rows) => Ok(out + rows)
    requires forall i :: 0 <= i < n && each(i).Ok? ==> |each(i).value| == 1
    ensures pull(n).Ok? <==> forall i :: 0 <= i < n ==> each(i).Ok?
    ensures pull(n).Ok? ==> |pull(n).value| == n && forall i :: 0 <= i < n ==> each(i) == Ok([pull(n).value[i]])
  {
    if n > 0 {
      OneRowEach(pull, each, n - 1);
      if pull(n).Ok? {
        var rows := pull(n).value;
        var prev := pull(n - 1).value;
        assert rows == prev + each(n - 1).value;
        forall i | 0 <= i < n
          ensures each(i) == Ok([rows[i]])
        {
          if i < n - 1 {
            assert rows[i] == prev[i];
          } else {
            assert each(i).value == [rows[i]];
          }
        }
      }
    }
  }

  /** Without `*` or `~` and without fan-out, `_pull_data` returns exactly
      one row per element, in input order: the element's own row. */
  lemma OneRowPerElement(o: Oracle, elems: seq<Element>, tags: seq<string>, high: Row, allow: bool)
    requires FlatFrom(tags, 0) && (allow || forall i :: 0 <= i < |elems| ==> SingleValuedAt(o, elems[i], tags, 0))
    ensures PullRows(o, elems, tags, high, allow, |elems|).Ok? <==>
              forall i :: 0 <= i < |elems| ==> ElementRows(o, elems[i], tags, high, allow).Ok?
    ensures PullRows(o, elems, tags, high, allow, |elems|).Ok? ==>
              var rows := PullRows(o, elems, tags, high, allow, |elems|).value;
              |rows| == |elems| && forall i :: 0 <= i < |elems| ==> ElementRows(o, elems[i], tags, high, allow) == Ok([rows[i]])
  {
    var n := |elems|;
    var pull: nat -> Result<seq<Row>, PyError> := (m: nat) => if m <= n then PullRows(o, elems, tags, high, allow, m) else Ok([]);
    var each: nat -> Result<seq<Row>, PyError> := (i: nat) => if i < n then ElementRows(o, elems[i], tags, high, allow) else Ok([]);
    forall m | 0 < m <= n
      ensures pull(m) == match pull(m - 1)
                         case Err(x) => Err(x)
                         case Ok(out) =>
                           match each(m - 1)
                           case Err(x) => Err(x)
                           case Ok(rows) => Ok(out + rows)
    {
      PullRowsStep(o, elems, tags, high, allow, m);
    }
    forall i | 0 <= i < n && each(i).Ok?
      ensures |each(i).value| == 1
    {
      ElementSingleRow(o, elems[i], tags, high, allow);
    }
    OneRowEach(pull, each, n);
    assert pull(n) == PullRows(o, elems, tags, high, allow, n);
    assert forall i :: 0 <= i < n ==> each(i) == ElementRows(o, elems[i], tags, high, allow);
  }

  /** A `*` group ends the tag list: the tags before it run as usual, and
      the group then runs the engine on the matched children with exactly
      the tags that follow it. */
  function NestedGroup(o: Oracle, e: Element, tags: seq<string>, j: nat, st: State, allow: bool): Result<State, PyError>
    requires j < |tags|
  {
    var elements := o.findall(e, "./" + Replace(tags[j], "*", ""));
    var sub :- PullRows(o, elements, tags[j + 1..], st.row, allow, |elements|);
    Ok(st.(out := st.out + sub, added := true))
  }

  lemma {:induction false} StarEndsTags(o: Oracle, e: Element, tags: seq<string>, j: nat, k: nat, st: State, allow: bool)
    requires k <= j < |tags| && '*' in tags[j]
    requires forall i :: 0 <= i < j ==> '*' !in tags[i]
    ensures RunTags(o, e, tags, k, st, allow)
            == match RunTags(o, e, tags[..j], k, st, allow)
               case Err(x) => Err(x)
               case Ok(st') => NestedGroup(o, e, tags, j, st', allow)
    decreases j - k
  {
    if k == j {
      forall i | 0 <= i < j
        ensures tags[i] != tags[j]
      {
        assert '*' !in tags[i];
      }
      AfterFirst(tags, tags[j], j);
    } else {
      assert tags[..j][k] == tags[k];
      if TagStep(o, e, tags[k], st, allow).Ok? {
        StarEndsTags(o, e, tags, j, k + 1, TagStep(o, e, tags[k], st, allow).value, allow);
      }
    }
  }
}
