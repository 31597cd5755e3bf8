/** The part of `to_pyarrow` around the engine: reject an empty response
    list, gather the record elements named by the start tag from every
    response, prefix every tag with its Workday steps, run the engine, and
    rename the columns of the resulting table. */
module Frontend {
  import opened Results
  import opened PyStr
  import opened Xml
  import opened Rows
  import opened Tags
  import opened Columns
  import opened Engine

  /** `'.//wd:' + start_tag`: every descendant with that local name in the
      Workday namespace. */
  function RecordPath(startTag: string): string {
    ".//wd:" + startTag
  }

  /** The record elements of the first `n` responses, response by
      response, each in the order its query returns them. */
  function Records(o: Oracle, roots: seq<Element>, startTag: string, n: nat): seq<Element>
    requires n <= |roots|
  {
    if n == 0 then [] else Records(o, roots, startTag, n - 1) + o.findall(roots[n - 1], RecordPath(startTag))
  }

  /** Every tag after the prefixing and `>>`/`||` rewriting. */
  function PreparedTags(tags: seq<string>): (prepared: seq<string>)
    ensures |prepared| == |tags|
  {
    seq(|tags|, i requires 0 <= i < |tags| => PrepareTag(tags[i]))
  }

  /** The rows `to_pyarrow` hands to `pa.Table.from_pylist`. */
  function PyarrowRows(o: Oracle, roots: seq<Element>, startTag: string, tags: seq<string>, allow: bool)
    : Result<seq<Row>, PyError>
  {
    if |roots| < 1 then Err(ValueError)
    else
      var records := Records(o, roots, startTag, |roots|);
      PullRows(o, records, PreparedTags(tags), map[], allow, |records|)
  }

  /** `to_pyarrow` on already parsed responses. Building the table is
      pyarrow's: `columnNames` stands for the column names of the table
      built from the rows, which the rename pass then rewrites. */
  method ToPyarrow(o: Oracle, responses: seq<Element>, startTag: string, tags: seq<string>, allow: bool,
                   columnNames: seq<Row> -> seq<string>)
    returns (result: Result<(seq<Row>, seq<string>), PyError>)
    ensures result.Err? <==> PyarrowRows(o, responses, startTag, tags, allow).Err?
    ensures result.Err? ==> result.error == PyarrowRows(o, responses, startTag, tags, allow).error
    ensures result.Ok? ==>
              var (data, newColumns) := result.value;
              PyarrowRows(o, responses, startTag, tags, allow) == Ok(data)
              && |newColumns| == |columnNames(data)|
              && forall i :: 0 <= i < |newColumns| ==> newColumns[i] == RenamedColumn(columnNames(data)[i])
  {
    if |responses| < 1 {
      return Err(ValueError);
    }
    var xmlListByStartTag: seq<Element> := [];
    for i := 0 to |responses|
      invariant xmlListByStartTag == Records(o, responses, startTag, i)
    {
      xmlListByStartTag := xmlListByStartTag + o.findall(responses[i], RecordPath(startTag));
    }
    var prepared := PreparedTags(tags);
    var data :- PullData(o, xmlListByStartTag, prepared, map[], allow);
    var newColumns := RenameColumns(columnNames(data));
    return Ok((data, newColumns));
  }

  /** An element is a record exactly when the start-tag query of some
      response returns it. */
  lemma {:induction false} RecordsMembers(o: Oracle, roots: seq<Element>, startTag: string, n: nat, e: Element)
    requires n <= |roots|
    ensures e in Records(o, roots, startTag, n) <==>
              exists i :: 0 <= i < n && e in o.findall(roots[i], RecordPath(startTag))
  {
    if n > 0 {
      RecordsMembers(o, roots, startTag, n - 1, e);
      if e in o.findall(roots[n - 1], RecordPath(startTag)) {
        assert 0 <= n - 1 < n;
      }
    }
  }

  /** Every prepared tag starts with the `./wd:` step, and a tag using
      neither `>>` nor `||` is only given that step. */
  lemma PreparedTagsSpec(tags: seq<string>)
    ensures forall i :: 0 <= i < |tags| ==>
              |WdStep| <= |PreparedTags(tags)[i]| && PreparedTags(tags)[i][..|WdStep|] == WdStep
    ensures forall i :: 0 <= i < |tags| && !Contains(tags[i], ">>") && !Contains(tags[i], "||") ==>
              PreparedTags(tags)[i] == WdStep + tags[i]
  {
    forall i | 0 <= i < |tags|
      ensures |WdStep| <= |PreparedTags(tags)[i]| && PreparedTags(tags)[i][..|WdStep|] == WdStep
    {
      PrepareTagPrefix(tags[i]);
    }
    forall i | 0 <= i < |tags| && !Contains(tags[i], ">>") && !Contains(tags[i], "||")
      ensures PreparedTags(tags)[i] == WdStep + tags[i]
    {
      PrepareTagPlain(tags[i]);
    }
  }
}
