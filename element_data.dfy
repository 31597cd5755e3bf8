/** `_extract_element_data`: flatten every leaf text and every attribute
    below an element into one row, keyed by the underscore-joined local
    names of the path to it, each key passed through the shortener. The
    shared `existing_keys` set of the source is threaded through as an
    in/out parameter; the source only ever adds to it.

    The flattening is defined for any shortening function `shorten`;
    `ElementData` fixes it to `ShortenColumnName` with the caller's limit,
    and the key-set lemmas hold whatever `shorten` is. */
module ElementData {
  import opened Results
  import opened PyStr
  import opened Xml
  import opened Rows
  import opened Shorten

  /** The `max_length` every caller in the engine uses. */
  const DefaultMaxLength: nat := 63

  /** `self._shorten_column_name(_, max_length)` as a function value. */
  function Shortener(maxLength: nat): string -> string {
    col => ShortenColumnName(col, maxLength)
  }

  /** `f"{prefix}_{tag_name}" if prefix else tag_name`. */
  function KeyFor(prefix: string, tag: string): string {
    if prefix != "" then prefix + "_" + tag else tag
  }

  /** The key of an attribute of the element keyed `key`. */
  function AttrKey(key: string, a: Attr, shorten: string -> string): string {
    shorten(key + "_" + a.name.local)
  }

  /** An optional text as a cell. */
  function TextValue(t: Option<string>): Value {
    match t
    case None => VNone
    case Some(s) => VText(s)
  }

  /** The cells the first `n` attributes of an element keyed `key`
      write, a later attribute overriding an earlier one with the same
      shortened key. */
  function AttrCells(key: string, attrs: seq<Attr>, shorten: string -> string, n: nat): Row
    requires n <= |attrs|
  {
    if n == 0 then map[]
    else AttrCells(key, attrs, shorten, n - 1)[AttrKey(key, attrs[n - 1], shorten) := VText(attrs[n - 1].value)]
  }

  /** The row built from the first `n` children of `e`: each child's
      attributes, then either its text under its key or, when it has
      children of its own, its own flattened row merged in. */
  function FlattenChildren(e: Element, prefix: string, shorten: string -> string, n: nat): Row
    requires n <= |e.children|
    decreases e, n
  {
    if n == 0 then map[]
    else
      var child := e.children[n - 1];
      var key := shorten(KeyFor(prefix, child.name.local));
      var withAttrs := FlattenChildren(e, prefix, shorten, n - 1) + AttrCells(key, child.attrs, shorten, |child.attrs|);
      if |child.children| > 0 then withAttrs + FlattenChildren(child, key, shorten, |child.children|)
      else withAttrs[key := TextValue(child.text)]
  }

  /** The row `_extract_element_data(e, ns, prefix, maxLength)` returns. */
  function ElementData(e: Element, prefix: string, maxLength: nat): Row {
    FlattenChildren(e, prefix, Shortener(maxLength), |e.children|)
  }

  /** Keys of the first `n` attributes of an element keyed `key`. */
  function AttrKeys(key: string, attrs: seq<Attr>, shorten: string -> string, n: nat): set<string>
    requires n <= |attrs|
  {
    if n == 0 then {} else AttrKeys(key, attrs, shorten, n - 1) + {AttrKey(key, attrs[n - 1], shorten)}
  }

  /** Every key the walk over the first `n` children adds to
      `existing_keys`: each child's key, leaf or not, and each attribute
      key. */
  function RecordedKeys(e: Element, prefix: string, shorten: string -> string, n: nat): set<string>
    requires n <= |e.children|
    decreases e, n
  {
    if n == 0 then {}
    else
      var child := e.children[n - 1];
      var key := shorten(KeyFor(prefix, child.name.local));
      RecordedKeys(e, prefix, shorten, n - 1) + {key} + AttrKeys(key, child.attrs, shorten, |child.attrs|)
        + (if |child.children| > 0 then RecordedKeys(child, key, shorten, |child.children|) else {})
  }

  /** Reference definition of the columns a flatten produces: one per
      attribute of every visited child and one per LEAF child; an element
      with children contributes its descendants' columns but no text
      column of its own. */
  function DataKeys(e: Element, prefix: string, shorten: string -> string, n: nat): set<string>
    requires n <= |e.children|
    decreases e, n
  {
    if n == 0 then {}
    else
      var child := e.children[n - 1];
      var key := shorten(KeyFor(prefix, child.name.local));
      DataKeys(e, prefix, shorten, n - 1) + AttrKeys(key, child.attrs, shorten, |child.attrs|)
        + (if |child.children| > 0 then DataKeys(child, key, shorten, |child.children|) else {key})
  }

  /** One assignment `data[key] = value` of the walk. */
  datatype Write = Write(key: string, value: Value)

  /** The assignments of the first `n` attributes of an element keyed
      `key`, in order. */
  function AttrWrites(key: string, attrs: seq<Attr>, shorten: string -> string, n: nat): seq<Write>
    requires n <= |attrs|
  {
    if n == 0 then []
    else AttrWrites(key, attrs, shorten, n - 1) + [Write(AttrKey(key, attrs[n - 1], shorten), VText(attrs[n - 1].value))]
  }

  /** Reference for the values: every assignment the walk over the first
      `n` children makes, in document order. Each visited child writes
      its attributes' values under their keys, then, when it is a leaf,
      its text under its own key; a child with children writes what its
      own walk writes. */
  function Writes(e: Element, prefix: string, shorten: string -> string, n: nat): seq<Write>
    requires n <= |e.children|
    decreases e, n
  {
    if n == 0 then []
    else
      var child := e.children[n - 1];
      var key := shorten(KeyFor(prefix, child.name.local));
      Writes(e, prefix, shorten, n - 1) + AttrWrites(key, child.attrs, shorten, |child.attrs|)
        + (if |child.children| > 0 then Writes(child, key, shorten, |child.children|)
           else [Write(key, TextValue(child.text))])
  }

  /** A dict after a sequence of assignments, starting empty. */
  function Applied(ws: seq<Write>): Row
    decreases |ws|
  {
    if ws == [] then map[] else Applied(ws[..|ws| - 1])[ws[|ws| - 1].key := ws[|ws| - 1].value]
  }

  /** `_extract_element_data` as the source runs it: a loop over the
      children, each handled by `ExtractChild`. */
  method ExtractElementData(e: Element, prefix: string, maxLength: nat, existingKeys: set<string>)
    returns (data: Row, keys: set<string>)
    ensures data == ElementData(e, prefix, maxLength)
    ensures keys == existingKeys + RecordedKeys(e, prefix, Shortener(maxLength), |e.children|)
    decreases e, 1
  {
    keys := existingKeys;
    data := map[];
    for i := 0 to |e.children|
      invariant data == FlattenChildren(e, prefix, Shortener(maxLength), i)
      invariant keys == existingKeys + RecordedKeys(e, prefix, Shortener(maxLength), i)
    {
      data, keys := ExtractChild(e, i, prefix, maxLength, existingKeys, data, keys);
    }
  }

  /** One turn of the loop over the children: record the child's key and
      attributes, then either recurse into it or store its text. */
  method ExtractChild(e: Element, i: nat, prefix: string, maxLength: nat, existingKeys: set<string>,
                      data: Row, keys: set<string>)
    returns (data': Row, keys': set<string>)
    requires i < |e.children|
    requires data == FlattenChildren(e, prefix, Shortener(maxLength), i)
    requires keys == existingKeys + RecordedKeys(e, prefix, Shortener(maxLength), i)
    ensures data' == FlattenChildren(e, prefix, Shortener(maxLength), i + 1)
    ensures keys' == existingKeys + RecordedKeys(e, prefix, Shortener(maxLength), i + 1)
    decreases e, 0
  {
    var shorten := Shortener(maxLength);
    var child := e.children[i];
    var tagName := child.name.local;
    var key := KeyFor(prefix, tagName);
    key := shorten(key);
    keys' := keys + {key};
    data', keys' := RecordAttributes(data, keys', key, child.attrs, maxLength);
    if |child.children| > 0 {
      var childData;
      childData, keys' := ExtractElementData(child, key, maxLength, keys');
      data' := data' + childData;
    } else {
      data' := data'[key := TextValue(child.text)];
    }
    RecordedKeysStep(e, prefix, shorten, i, existingKeys, keys, keys');
  }

  /** The inner loop over one child's attributes: each attribute is
      recorded in `keys` and written into `data` under its shortened key. */
  method RecordAttributes(data: Row, keys: set<string>, key: string, attrs: seq<Attr>, maxLength: nat)
    returns (data': Row, keys': set<string>)
    ensures data' == data + AttrCells(key, attrs, Shortener(maxLength), |attrs|)
    ensures keys' == keys + AttrKeys(key, attrs, Shortener(maxLength), |attrs|)
  {
    var shorten := Shortener(maxLength);
    data', keys' := data, keys;
    for j := 0 to |attrs|
      invariant data' == data + AttrCells(key, attrs, shorten, j)
      invariant keys' == keys + AttrKeys(key, attrs, shorten, j)
    {
      var attrKey := key + "_" + attrs[j].name.local;
      attrKey := shorten(attrKey);
      keys' := keys' + {attrKey};
      data' := data'[attrKey := VText(attrs[j].value)];
    }
  }

  /** The key set after one more child, in the grouping the loop builds it. */
  lemma RecordedKeysStep(e: Element, prefix: string, shorten: string -> string, i: nat,
                         existingKeys: set<string>, before: set<string>, after: set<string>)
    requires i < |e.children|
    requires before == existingKeys + RecordedKeys(e, prefix, shorten, i)
    requires var child := e.children[i];
             var key := shorten(KeyFor(prefix, child.name.local));
             after == before + {key} + AttrKeys(key, child.attrs, shorten, |child.attrs|)
                      + (if |child.children| > 0 then RecordedKeys(child, key, shorten, |child.children|) else {})
    ensures after == existingKeys + RecordedKeys(e, prefix, shorten, i + 1)
  {
  }

  lemma {:induction false} AttrKeysBounded(key: string, attrs: seq<Attr>, shorten: string -> string, maxLength: nat, n: nat)
    requires n <= |attrs|
    requires forall col :: |shorten(col)| <= maxLength
    ensures forall k :: k in AttrKeys(key, attrs, shorten, n) ==> |k| <= maxLength
  {
    if n > 0 {
      AttrKeysBounded(key, attrs, shorten, maxLength, n - 1);
    }
  }

  /** Every key `_extract_element_data` records, and so every column it
      produces, fits the length limit of the shortener. */
  lemma {:induction false} RecordedKeysBounded(e: Element, prefix: string, shorten: string -> string, maxLength: nat, n: nat)
    requires n <= |e.children|
    requires forall col :: |shorten(col)| <= maxLength
    ensures forall k :: k in RecordedKeys(e, prefix, shorten, n) ==> |k| <= maxLength
    decreases e, n
  {
    if n > 0 {
      var m := n - 1;
      var child := e.children[m];
      var key := shorten(KeyFor(prefix, child.name.local));
      var sub := if |child.children| > 0 then RecordedKeys(child, key, shorten, |child.children|) else {};
      assert RecordedKeys(e, prefix, shorten, n)
          == RecordedKeys(e, prefix, shorten, m) + {key} + AttrKeys(key, child.attrs, shorten, |child.attrs|) + sub;
      RecordedKeysBounded(e, prefix, shorten, maxLength, m);
      AttrKeysBounded(key, child.attrs, shorten, maxLength, |child.attrs|);
      if |child.children| > 0 {
        RecordedKeysBounded(child, key, shorten, maxLength, |child.children|);
      }
    }
  }

  lemma {:induction false} AttrCellsHas(key: string, attrs: seq<Attr>, shorten: string -> string, n: nat, k: string)
    requires n <= |attrs|
    ensures k in AttrCells(key, attrs, shorten, n) <==> k in AttrKeys(key, attrs, shorten, n)
  {
    if n > 0 {
      AttrCellsHas(key, attrs, shorten, n - 1, k);
    }
  }

  /** A column is in the flattened row exactly when it is in the
      reference set: attributes of every visited child and leaf children
      only. */
  lemma {:induction false} FlattenChildrenHas(e: Element, prefix: string, shorten: string -> string, n: nat, k: string)
    requires n <= |e.children|
    ensures k in FlattenChildren(e, prefix, shorten, n) <==> k in DataKeys(e, prefix, shorten, n)
    decreases e, n, 1
  {
    if n > 0 {
      if |e.children[n - 1].children| > 0 {
        NestedChildHas(e, prefix, shorten, n, k);
      } else {
        LeafChildHas(e, prefix, shorten, n, k);
      }
    }
  }

  /** The step of `FlattenChildrenHas` for a child with children. */
  lemma {:induction false} NestedChildHas(e: Element, prefix: string, shorten: string -> string, n: nat, k: string)
    requires 0 < n <= |e.children| && |e.children[n - 1].children| > 0
    ensures k in FlattenChildren(e, prefix, shorten, n) <==> k in DataKeys(e, prefix, shorten, n)
    decreases e, n, 0
  {
    var m := n - 1;
    var child := e.children[m];
    var key := shorten(KeyFor(prefix, child.name.local));
    FlattenChildrenHas(e, prefix, shorten, m, k);
    FlattenChildrenHas(child, key, shorten, |child.children|, k);
    AttrCellsHas(key, child.attrs, shorten, |child.attrs|, k);
  }

  /** The step of `FlattenChildrenHas` for a leaf child. */
  lemma {:induction false} LeafChildHas(e: Element, prefix: string, shorten: string -> string, n: nat, k: string)
    requires 0 < n <= |e.children| && |e.children[n - 1].children| == 0
    ensures k in FlattenChildren(e, prefix, shorten, n) <==> k in DataKeys(e, prefix, shorten, n)
    decreases e, n, 0
  {
    var m := n - 1;
    var child := e.children[m];
    var key := shorten(KeyFor(prefix, child.name.local));
    FlattenChildrenHas(e, prefix, shorten, m, k);
    AttrCellsHas(key, child.attrs, shorten, |child.attrs|, k);
  }

  lemma {:induction false} DataKeysRecorded(e: Element, prefix: string, shorten: string -> string, n: nat)
    requires n <= |e.children|
    ensures DataKeys(e, prefix, shorten, n) <= RecordedKeys(e, prefix, shorten, n)
    decreases e, n
  {
    if n > 0 {
      var child := e.children[n - 1];
      var key := shorten(KeyFor(prefix, child.name.local));
      DataKeysRecorded(e, prefix, shorten, n - 1);
      if |child.children| > 0 {
        DataKeysRecorded(child, key, shorten, |child.children|);
      }
    }
  }

  /** Whole-call summary: the columns of the flattened row are the
      reference set, every column fits a positive limit,
      and when the call returns the shared key set holds every column. */
  lemma FlattenedColumns(e: Element, prefix: string, maxLength: nat, existingKeys: set<string>)
    requires 0 < maxLength
    ensures ElementData(e, prefix, maxLength).Keys == DataKeys(e, prefix, Shortener(maxLength), |e.children|)
    ensures forall k :: k in ElementData(e, prefix, maxLength).Keys ==> |k| <= maxLength
    ensures ElementData(e, prefix, maxLength).Keys <= existingKeys + RecordedKeys(e, prefix, Shortener(maxLength), |e.children|)
  {
    var shorten := Shortener(maxLength);
    forall col
      ensures |shorten(col)| <= maxLength
    {
      ShortenFits(col, maxLength);
    }
    forall k
      ensures k in ElementData(e, prefix, maxLength) <==> k in DataKeys(e, prefix, shorten, |e.children|)
    {
      FlattenChildrenHas(e, prefix, shorten, |e.children|, k);
    }
    DataKeysRecorded(e, prefix, shorten, |e.children|);
    RecordedKeysBounded(e, prefix, shorten, maxLength, |e.children|);
  }

  /** Assigning `a` then `b` is updating with `b` after `a`. */
  lemma {:induction false} AppliedConcat(a: seq<Write>, b: seq<Write>)
    ensures Applied(a + b) == Applied(a) + Applied(b)
    decreases |b|
  {
    if b == [] {
      assert a + b == a;
      assert Applied(a) + map[] == Applied(a);
    } else {
      var init := b[..|b| - 1];
      var last := b[|b| - 1];
      AppliedConcat(a, init);
      assert (a + b)[..|a + b| - 1] == a + init;
      assert (a + b)[|a + b| - 1] == last;
      assert Applied(a + b) == Applied(a + init)[last.key := last.value];
      assert Applied(b) == Applied(init)[last.key := last.value];
      assert Applied(a) + Applied(init)[last.key := last.value]
             == (Applied(a) + Applied(init))[last.key := last.value];
    }
  }

  /** Three runs of assignments one after the other. */
  lemma AppliedConcat3(a: seq<Write>, b: seq<Write>, c: seq<Write>)
    ensures Applied(a + b + c) == Applied(a) + Applied(b) + Applied(c)
  {
    AppliedConcat(a, b);
    AppliedConcat(a + b, c);
  }

  /** A single assignment. */
  lemma AppliedOne(m: Row, w: Write)
    ensures m + Applied([w]) == m[w.key := w.value]
  {
    assert [w][..0] == [];
    assert Applied([w]) == map[w.key := w.value];
  }

  /** The value a key ends with is that of the last assignment to it;
      a key nothing assigns is absent. */
  lemma {:induction false} LastWriteWins(ws: seq<Write>, k: string)
    ensures k in Applied(ws) <==> exists i :: 0 <= i < |ws| && ws[i].key == k
    ensures k in Applied(ws) ==>
              exists i :: 0 <= i < |ws| && ws[i].key == k && Applied(ws)[k] == ws[i].value
                          && forall j :: i < j < |ws| ==> ws[j].key != k
    decreases |ws|
  {
    if ws != [] {
      var init := ws[..|ws| - 1];
      LastWriteWins(init, k);
      assert forall i :: 0 <= i < |init| ==> init[i] == ws[i];
      if ws[|ws| - 1].key != k && k in Applied(ws) {
        var i :| 0 <= i < |init| && init[i].key == k && Applied(init)[k] == init[i].value
                 && forall j :: i < j < |init| ==> init[j].key != k;
        assert ws[i].key == k && Applied(ws)[k] == ws[i].value;
      }
    }
  }

  lemma {:induction false} AttrCellsWrites(key: string, attrs: seq<Attr>, shorten: string -> string, n: nat)
    requires n <= |attrs|
    ensures AttrCells(key, attrs, shorten, n) == Applied(AttrWrites(key, attrs, shorten, n))
  {
    if n > 0 {
      AttrCellsWrites(key, attrs, shorten, n - 1);
      var ws := AttrWrites(key, attrs, shorten, n);
      assert ws[..|ws| - 1] == AttrWrites(key, attrs, shorten, n - 1);
    }
  }

  /** The flattened row is what the document-order assignments leave. */
  lemma {:induction false} FlattenChildrenWrites(e: Element, prefix: string, shorten: string -> string, n: nat)
    requires n <= |e.children|
    ensures FlattenChildren(e, prefix, shorten, n) == Applied(Writes(e, prefix, shorten, n))
    decreases e, n, 1
  {
    if n > 0 {
      if |e.children[n - 1].children| > 0 {
        NestedChildWrites(e, prefix, shorten, n);
      } else {
        LeafChildWrites(e, prefix, shorten, n);
      }
    }
  }

  /** The step of `FlattenChildrenWrites` for a child with children. */
  lemma {:induction false} NestedChildWrites(e: Element, prefix: string, shorten: string -> string, n: nat)
    requires 0 < n <= |e.children| && |e.children[n - 1].children| > 0
    ensures FlattenChildren(e, prefix, shorten, n) == Applied(Writes(e, prefix, shorten, n))
    decreases e, n, 0
  {
    var m := n - 1;
    var child := e.children[m];
    var key := shorten(KeyFor(prefix, child.name.local));
    var before := Writes(e, prefix, shorten, m);
    var attrs := AttrWrites(key, child.attrs, shorten, |child.attrs|);
    var inner := Writes(child, key, shorten, |child.children|);
    FlattenChildrenWrites(e, prefix, shorten, m);
    AttrCellsWrites(key, child.attrs, shorten, |child.attrs|);
    FlattenChildrenWrites(child, key, shorten, |child.children|);
    AppliedConcat3(before, attrs, inner);
  }

  /** The step of `FlattenChildrenWrites` for a leaf child. */
  lemma {:induction false} LeafChildWrites(e: Element, prefix: string, shorten: string -> string, n: nat)
    requires 0 < n <= |e.children| && |e.children[n - 1].children| == 0
    ensures FlattenChildren(e, prefix, shorten, n) == Applied(Writes(e, prefix, shorten, n))
    decreases e, n, 0
  {
    var m := n - 1;
    var child := e.children[m];
    var key := shorten(KeyFor(prefix, child.name.local));
    var w := Write(key, TextValue(child.text));
    var before := Writes(e, prefix, shorten, m);
    var attrs := AttrWrites(key, child.attrs, shorten, |child.attrs|);
    FlattenChildrenWrites(e, prefix, shorten, m);
    AttrCellsWrites(key, child.attrs, shorten, |child.attrs|);
    AppliedConcat3(before, attrs, [w]);
    AppliedOne(Applied(before) + Applied(attrs), w);
  }

  /** Every assignment stores an attribute's string or a leaf's text,
      which may be `None`. */
  lemma {:induction false} WritesAreTexts(e: Element, prefix: string, shorten: string -> string, n: nat)
    requires n <= |e.children|
    ensures forall i :: 0 <= i < |Writes(e, prefix, shorten, n)| ==>
              Writes(e, prefix, shorten, n)[i].value.VText? || Writes(e, prefix, shorten, n)[i].value.VNone?
    decreases e, n
  {
    if n > 0 {
      var child := e.children[n - 1];
      var key := shorten(KeyFor(prefix, child.name.local));
      WritesAreTexts(e, prefix, shorten, n - 1);
      AttrWritesAreTexts(key, child.attrs, shorten, |child.attrs|);
      if |child.children| > 0 {
        WritesAreTexts(child, key, shorten, |child.children|);
      }
    }
  }

  lemma {:induction false} AttrWritesAreTexts(key: string, attrs: seq<Attr>, shorten: string -> string, n: nat)
    requires n <= |attrs|
    ensures forall i :: 0 <= i < |AttrWrites(key, attrs, shorten, n)| ==> AttrWrites(key, attrs, shorten, n)[i].value.VText?
  {
    if n > 0 {
      AttrWritesAreTexts(key, attrs, shorten, n - 1);
    }
  }

  /** What each column of `_extract_element_data` holds: a column is
      present exactly when some assignment of the walk targets it, and it
      holds the value of the last such assignment in document order, an
      attribute's string or a leaf's text. */
  lemma ElementDataValues(e: Element, prefix: string, maxLength: nat)
    ensures var data := ElementData(e, prefix, maxLength);
            var ws := Writes(e, prefix, Shortener(maxLength), |e.children|);
            forall k :: (k in data <==> exists i :: 0 <= i < |ws| && ws[i].key == k)
                        && (k in data ==> exists i :: 0 <= i < |ws| && ws[i].key == k && data[k] == ws[i].value
                                                      && forall j :: i < j < |ws| ==> ws[j].key != k)
    ensures var data := ElementData(e, prefix, maxLength);
            forall k :: k in data ==> data[k].VText? || data[k].VNone?
  {
    var shorten := Shortener(maxLength);
    var ws := Writes(e, prefix, shorten, |e.children|);
    FlattenChildrenWrites(e, prefix, shorten, |e.children|);
    WritesAreTexts(e, prefix, shorten, |e.children|);
    forall k
      ensures (k in Applied(ws) <==> exists i :: 0 <= i < |ws| && ws[i].key == k)
              && (k in Applied(ws) ==> exists i :: 0 <= i < |ws| && ws[i].key == k && Applied(ws)[k] == ws[i].value
                                                  && forall j :: i < j < |ws| ==> ws[j].key != k)
    {
      LastWriteWins(ws, k);
    }
  }
}
