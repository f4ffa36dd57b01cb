/**
 * The write engine (`src/write.rs`): an index-driven visitor over a body that
 * replaces attribute values and appends a new attribute wherever it visits a
 * body at the last field.
 *
 * The visitor is modelled as it runs. At a body, the current field collects
 * the matching attribute keys (one per attribute) and block identifiers (one
 * per hit of the name/label test), then
 *  - for every collected key, one field further on, visits the first
 *    attribute with that key, which advances one more field before looking
 *    at the value;
 *  - for every collected identifier, one field further on, visits the body of
 *    every block with that identifier;
 *  - at the last field, inserts `name = value` unless the key is present.
 * A labeled field therefore only gates the descent, a block is re-visited
 * once per hit, and an attribute is replaced only when exactly one field
 * follows the one naming it.
 */
module Editor {
  import opened Wrappers
  import opened Hcl
  import opened FilterParser
  import opened Matching

  /**
   * `should_edit`: the index has reached the last field. It is only consulted
   * while the field list is non-empty, so the unsigned `len() - 1` never wraps.
   */
  predicate ShouldEdit(fs: seq<Field>, i: int) {
    i >= |fs| - 1
  }

  // ---------------------------------------------------------------------------
  // The decor of the last attribute

  /** The scan of `visit_body_mut`'s first loop: every attribute overwrites the saved decor. */
  function DecorScan(body: Body, saved: Option<Decor>): Option<Decor> {
    if body == [] then saved
    else
      match body[0]
      case AttributeItem(a) => DecorScan(body[1..], Some(a.decor))
      case BlockItem(_) => DecorScan(body[1..], saved)
  }

  function LastAttrDecor(body: Body): Option<Decor> {
    DecorScan(body, None)
  }

  // ---------------------------------------------------------------------------
  // Attribute visits

  /** `get_attribute_mut(key)` followed by an assignment to its value. */
  function SetFirstAttrValue(body: Body, key: string, v: Expression): (r: Body)
    ensures |r| == |body|
    ensures forall p | 0 <= p < |body| ::
      r[p] == if IsFirstAttr(body, p, key) then AttributeItem(body[p].attr.(value := v)) else body[p]
  {
    if body == [] then []
    else if IsAttr(body[0], key) then [AttributeItem(body[0].attr.(value := v))] + body[1..]
    else
      var rest := SetFirstAttrValue(body[1..], key, v);
      assert forall p | 1 <= p < |body| :: IsFirstAttr(body, p, key) <==> IsFirstAttr(body[1..], p - 1, key) by {
        forall p | 1 <= p < |body| ensures IsFirstAttr(body, p, key) <==> IsFirstAttr(body[1..], p - 1, key) {
          if IsFirstAttr(body[1..], p - 1, key) {
            forall q | 0 <= q < p ensures !IsAttr(body[q], key) {
              if q > 0 { assert body[q] == body[1..][q - 1]; }
            }
          }
        }
      }
      [body[0]] + rest
  }

  /**
   * `visit_attr_mut`, entered one field further on than the body it belongs
   * to: at the last field the value is replaced; otherwise the index advances
   * again and the value's expression is walked by the default visitor, which
   * changes nothing.
   */
  function VisitAttr(fs: seq<Field>, j: int, v: Expression, key: string, body: Body): (r: Body)
    ensures SameShapes(body, r)
  {
    if ShouldEdit(fs, j) then SetFirstAttrValue(body, key, v) else body
  }

  /** The second loop of `visit_body_mut`: one attribute visit per collected key. */
  function EditAttrs(fs: seq<Field>, j: int, v: Expression, keys: seq<string>, body: Body): (r: Body)
    ensures SameShapes(body, r)
  {
    if keys == [] then body
    else EditAttrs(fs, j, v, keys[1..], VisitAttr(fs, j, v, keys[0], body))
  }

  // ---------------------------------------------------------------------------
  // The visitor

  /**
   * `get_blocks_mut(ident)` with `visit_body_mut` on each block's body, one
   * field further on.
   */
  function WriteBlocksNamed(fs: seq<Field>, j: nat, v: Expression, ident: string, body: Body): (r: Body)
    requires j <= |fs|
    ensures SameShapes(body, r)
    ensures forall p | 0 <= p < |body| ::
              r[p] == if IsBlock(body[p], ident)
                      then BlockItem(body[p].block.(body := WriteBody(fs, j, v, body[p].block.body)))
                      else body[p]
    decreases |fs| - j + 1, 0, |body|
  {
    if body == [] then []
    else
      var head := if IsBlock(body[0], ident)
        then BlockItem(body[0].block.(body := WriteBody(fs, j, v, body[0].block.body)))
        else body[0];
      [head] + WriteBlocksNamed(fs, j, v, ident, body[1..])
  }

  /** The third loop of `visit_body_mut`: one descent per collected identifier. */
  function EditBlocks(fs: seq<Field>, j: nat, v: Expression, idents: seq<string>, body: Body): (r: Body)
    requires j <= |fs|
    ensures SameShapes(body, r)
    decreases |fs| - j + 1, 1, |idents|
  {
    if idents == [] then body
    else EditBlocks(fs, j, v, idents[1..], WriteBlocksNamed(fs, j, v, idents[0], body))
  }

  /**
   * `visit_body_mut` at index `i`: nothing happens past the last field;
   * otherwise attribute visits, then block descents, then the insertion at
   * the last field, with the decor saved before anything changed.
   */
  function WriteBody(fs: seq<Field>, i: nat, v: Expression, body: Body): (r: Body)
    ensures ShapePrefix(body, r)
    ensures |r| <= |body| + 1
    ensures |r| == |body| + 1 ==> i == |fs| - 1 && r[|body|] == AttributeItem(Attribute(fs[i].name, v, LastAttrDecor(body).GetOr(DefaultDecor)))
    decreases |fs| - i, 2
  {
    if i >= |fs| then body
    else
      var field := fs[i];
      var decor := LastAttrDecor(body);
      var edited := EditAttrs(fs, i + 1, v, MatchingAttrKeys(body, field.name), body);
      var descended := EditBlocks(fs, i + 1, v, MatchingBlockIdents(body, field), edited);
      if ShouldEdit(fs, i) then Insert(descended, Attribute(field.name, v, decor.GetOr(DefaultDecor)))
      else descended
  }

  /**
   * Whether the visitor reaches a body at the last field, where building the
   * new key with `Ident::new` panics unless the name is an identifier.
   */
  predicate TerminalVisited(fs: seq<Field>, i: nat, body: Body)
    decreases |fs| - i
  {
    i < |fs| &&
    (i == |fs| - 1 ||
     exists p | 0 <= p < |body| ::
       IsBlock(body[p], fs[i].name) && Gate(body, fs[i]) && TerminalVisited(fs, i + 1, body[p].block.body))
  }

  /** `write`: the visitor started at the first field on the root body. */
  function Write(fields: seq<Field>, body: Body, value: Expression): (r: Run<Body>)
    ensures fields == [] ==> r == Returns(body)
    ensures |fields| == 1 ==> (r.Panics? <==> !IsIdentifier(fields[0].name))
    ensures r.Panics? ==> !IsIdentifier(fields[|fields| - 1].name)
    ensures r.Returns? ==> ShapePrefix(body, r.value) && |r.value| <= |body| + 1
  {
    if |fields| > 0 && TerminalVisited(fields, 0, body) && !IsIdentifier(fields[|fields| - 1].name) then Panics
    else Returns(WriteBody(fields, 0, value, body))
  }

  // ---------------------------------------------------------------------------
  // A positional reading of the visitor

  /**
   * What a visit at index `i` leaves at position `p` of a body: the first
   * attribute with the field's name takes the value when at most one field
   * follows; when some block passes the field's test, every block with the
   * field's identifier is written one field further on; anything else stays.
   */
  function WrittenItem(fs: seq<Field>, i: nat, v: Expression, body: Body, p: int): Structure
    requires i < |fs| && 0 <= p < |body|
    decreases |fs| - i, 0
  {
    var field := fs[i];
    if IsFirstAttr(body, p, field.name) && ShouldEdit(fs, i + 1) then AttributeItem(body[p].attr.(value := v))
    else if IsBlock(body[p], field.name) && Gate(body, field) then
      BlockItem(body[p].block.(body := WrittenBody(fs, i + 1, v, body[p].block.body)))
    else body[p]
  }

  function WrittenItems(fs: seq<Field>, i: nat, v: Expression, body: Body): (items: Body)
    requires i < |fs|
    ensures |items| == |body|
    ensures forall p | 0 <= p < |body| :: items[p] == WrittenItem(fs, i, v, body, p)
    decreases |fs| - i, 1
  {
    seq(|body|, p requires 0 <= p < |body| => WrittenItem(fs, i, v, body, p))
  }

  /** The body a visit at index `i` leaves: the written items, then the insertion at the last field. */
  function WrittenBody(fs: seq<Field>, i: nat, v: Expression, body: Body): Body
    decreases |fs| - i, 2
  {
    if i >= |fs| then body
    else
      var items := WrittenItems(fs, i, v, body);
      if ShouldEdit(fs, i) then Insert(items, Attribute(fs[i].name, v, LastAttrDecor(body).GetOr(DefaultDecor)))
      else items
  }

  // ---------------------------------------------------------------------------
  // Repeated visits collapse

  lemma SetFirstAttrValueIdempotent(body: Body, key: string, v: Expression)
    ensures SetFirstAttrValue(SetFirstAttrValue(body, key, v), key, v) == SetFirstAttrValue(body, key, v)
  {
    var r := SetFirstAttrValue(body, key, v);
    assert ShapePrefix(body, r);
    ShapePrefixKeepsFirstAttr(body, r, key);
  }

  /** Visiting the first attribute with a key once per collected key is visiting it once. */
  lemma {:induction false} EditAttrsCollapse(fs: seq<Field>, j: int, v: Expression, keys: seq<string>, body: Body, key: string)
    requires forall k | 0 <= k < |keys| :: keys[k] == key
    ensures EditAttrs(fs, j, v, keys, body) == if keys != [] && ShouldEdit(fs, j) then SetFirstAttrValue(body, key, v) else body
  {
    if keys != [] {
      var next := VisitAttr(fs, j, v, keys[0], body);
      EditAttrsCollapse(fs, j, v, keys[1..], next, key);
      if ShouldEdit(fs, j) && keys[1..] != [] {
        SetFirstAttrValueIdempotent(body, key, v);
      }
    }
  }

  lemma NamedIdempotent(fs: seq<Field>, j: nat, v: Expression, ident: string, body: Body)
    requires j <= |fs|
    ensures WriteBlocksNamed(fs, j, v, ident, WriteBlocksNamed(fs, j, v, ident, body)) == WriteBlocksNamed(fs, j, v, ident, body)
    decreases |fs| - j + 1, 1
  {
    var r := WriteBlocksNamed(fs, j, v, ident, body);
    var rr := WriteBlocksNamed(fs, j, v, ident, r);
    forall p | 0 <= p < |body| ensures rr[p] == r[p] {
      if IsBlock(body[p], ident) {
        WriteBodyIdempotent(fs, j, v, body[p].block.body);
      }
    }
  }

  /** Descending into the blocks of an identifier once per collected hit is descending once. */
  lemma {:induction false} EditBlocksCollapse(fs: seq<Field>, j: nat, v: Expression, idents: seq<string>, body: Body, ident: string)
    requires j <= |fs|
    requires forall k | 0 <= k < |idents| :: idents[k] == ident
    ensures EditBlocks(fs, j, v, idents, body) == if idents == [] then body else WriteBlocksNamed(fs, j, v, ident, body)
    decreases |fs| - j + 1, 2, |idents|
  {
    if idents != [] {
      var next := WriteBlocksNamed(fs, j, v, ident, body);
      EditBlocksCollapse(fs, j, v, idents[1..], next, ident);
      if idents[1..] != [] {
        NamedIdempotent(fs, j, v, ident, body);
      }
    }
  }

  /** One position after the attribute visits and block descents of a visit at index `i`. */
  lemma VisitedItem(fs: seq<Field>, i: nat, v: Expression, body: Body, p: int)
    requires i < |fs| && 0 <= p < |body|
    ensures var field := fs[i];
      var edited := EditAttrs(fs, i + 1, v, MatchingAttrKeys(body, field.name), body);
      EditBlocks(fs, i + 1, v, MatchingBlockIdents(body, field), edited)[p]
      == if IsFirstAttr(body, p, field.name) && ShouldEdit(fs, i + 1) then AttributeItem(body[p].attr.(value := v))
         else if IsBlock(body[p], field.name) && Gate(body, field)
         then BlockItem(body[p].block.(body := WriteBody(fs, i + 1, v, body[p].block.body)))
         else body[p]
    decreases |fs| - i, 3, 0
  {
    var field := fs[i];
    var keys := MatchingAttrKeys(body, field.name);
    var idents := MatchingBlockIdents(body, field);
    EditAttrsCollapse(fs, i + 1, v, keys, body, field.name);
    var edited := EditAttrs(fs, i + 1, v, keys, body);
    EditBlocksCollapse(fs, i + 1, v, idents, edited, field.name);
    assert edited[p] == if IsFirstAttr(body, p, field.name) && ShouldEdit(fs, i + 1) then AttributeItem(body[p].attr.(value := v)) else body[p];
  }

  /** The visitor leaves exactly the positional reading. */
  lemma {:induction false} WriteBodyIsWritten(fs: seq<Field>, i: nat, v: Expression, body: Body)
    ensures WriteBody(fs, i, v, body) == WrittenBody(fs, i, v, body)
    decreases |fs| - i, 3, 1
  {
    if i < |fs| {
      var field := fs[i];
      var edited := EditAttrs(fs, i + 1, v, MatchingAttrKeys(body, field.name), body);
      var descended := EditBlocks(fs, i + 1, v, MatchingBlockIdents(body, field), edited);
      var items := WrittenItems(fs, i, v, body);
      forall p | 0 <= p < |body| ensures descended[p] == items[p] {
        VisitedItem(fs, i, v, body, p);
        if IsBlock(body[p], field.name) && Gate(body, field) {
          WriteBodyIsWritten(fs, i + 1, v, body[p].block.body);
        }
      }
      assert descended == items;
    }
  }

  /** A body whose items past a shape prefix are attributes passes the same gates. */
  lemma GateOfShapePrefix(b1: Body, b2: Body, field: Field)
    requires ShapePrefix(b1, b2)
    requires forall p | |b1| <= p < |b2| :: b2[p].AttributeItem?
    ensures Gate(b1, field) <==> Gate(b2, field)
  {
    if Gate(b1, field) {
      var p :| 0 <= p < |b1| && b1[p].BlockItem? && Selects(field, b1[p].block);
      assert SameShape(b1[p], b2[p]);
    }
    if Gate(b2, field) {
      var p :| 0 <= p < |b2| && b2[p].BlockItem? && Selects(field, b2[p].block);
      assert SameShape(b1[p], b2[p]);
    }
  }

  /** Reading a written body again changes nothing. */
  lemma {:induction false} WrittenIdempotent(fs: seq<Field>, i: nat, v: Expression, body: Body)
    ensures WrittenBody(fs, i, v, WrittenBody(fs, i, v, body)) == WrittenBody(fs, i, v, body)
    decreases |fs| - i, 3
  {
    if i < |fs| {
      var field := fs[i];
      var items := WrittenItems(fs, i, v, body);
      var r := WrittenBody(fs, i, v, body);
      assert forall p | 0 <= p < |body| :: SameShape(body[p], items[p]);
      assert ShapePrefix(body, r);
      ShapePrefixKeepsFirstAttr(body, r, field.name);
      GateOfShapePrefix(body, r, field);
      var again := WrittenItems(fs, i, v, r);
      forall p | 0 <= p < |r| ensures again[p] == r[p] {
        if p < |body| {
          if !(IsFirstAttr(body, p, field.name) && ShouldEdit(fs, i + 1)) && IsBlock(body[p], field.name) && Gate(body, field) {
            WrittenIdempotent(fs, i + 1, v, body[p].block.body);
          }
        } else {
          assert !HasAttribute(items, field.name);
          assert IsFirstAttr(r, p, field.name);
        }
      }
      assert again == r;
    }
  }

  /** Visiting a body twice at the same index is visiting it once. */
  lemma WriteBodyIdempotent(fs: seq<Field>, i: nat, v: Expression, body: Body)
    ensures WriteBody(fs, i, v, WriteBody(fs, i, v, body)) == WriteBody(fs, i, v, body)
    decreases |fs| - i, 4
  {
    WriteBodyIsWritten(fs, i, v, body);
    WriteBodyIsWritten(fs, i, v, WriteBody(fs, i, v, body));
    WrittenIdempotent(fs, i, v, body);
  }

  // ---------------------------------------------------------------------------
  // Properties

  lemma {:induction false} DecorScanIsLast(body: Body, saved: Option<Decor>)
    ensures var attrs := Attributes(body);
      DecorScan(body, saved) == if attrs == [] then saved else Some(attrs[|attrs| - 1].decor)
  {
    if body != [] {
      match body[0]
      case AttributeItem(a) => DecorScanIsLast(body[1..], Some(a.decor));
      case BlockItem(_) => DecorScanIsLast(body[1..], saved);
    }
  }

  /** The saved decor is the decor of the body's last attribute, if it has one. */
  lemma LastAttrDecorIsLast(body: Body)
    ensures var attrs := Attributes(body);
      LastAttrDecor(body) == if attrs == [] then None else Some(attrs[|attrs| - 1].decor)
  {
    DecorScanIsLast(body, None);
  }

  /**
   * A visit at the last field: when the body holds an attribute with the
   * name, the first such attribute takes the value (key and decor kept) and
   * nothing else changes; otherwise `name = value` is appended, carrying the
   * decor of the body's last attribute or the default decor.
   */
  lemma WriteAtLastField(fs: seq<Field>, i: nat, v: Expression, body: Body)
    requires i + 1 == |fs|
    ensures HasAttribute(body, fs[i].name) ==>
      var r := WriteBody(fs, i, v, body);
      |r| == |body| &&
      forall p | 0 <= p < |body| ::
        r[p] == if IsFirstAttr(body, p, fs[i].name) then AttributeItem(body[p].attr.(value := v)) else body[p]
    ensures !HasAttribute(body, fs[i].name) ==>
      WriteBody(fs, i, v, body) == body + [AttributeItem(Attribute(fs[i].name, v, LastAttrDecor(body).GetOr(DefaultDecor)))]
  {
    var name := fs[i].name;
    WriteBodyIsWritten(fs, i, v, body);
    LastFieldItems(fs, i, v, body);
    var items := SetFirstAttrValue(body, name, v);
    if HasAttribute(body, name) {
      var q :| 0 <= q < |body| && IsAttr(body[q], name);
      assert IsAttr(items[q], name);
    } else {
      assert items == body;
    }
  }

  /** At the last field, the item-wise part of a visit is the first attribute's assignment. */
  lemma LastFieldItems(fs: seq<Field>, i: nat, v: Expression, body: Body)
    requires i + 1 == |fs|
    ensures WrittenItems(fs, i, v, body) == SetFirstAttrValue(body, fs[i].name, v)
  {
    var name := fs[i].name;
    var items := WrittenItems(fs, i, v, body);
    var replaced := SetFirstAttrValue(body, name, v);
    assert ShouldEdit(fs, i + 1);
    forall p | 0 <= p < |body| ensures items[p] == replaced[p] {
      if IsBlock(body[p], name) {
        assert WrittenBody(fs, i + 1, v, body[p].block.body) == body[p].block.body;
        assert body[p].block.(body := body[p].block.body) == body[p].block;
      }
    }
    assert items == replaced;
  }

  /**
   * Writing at the last field never duplicates a key: a body with at most one
   * attribute of the name has exactly one afterwards.
   */
  lemma WriteKeepsKeyUnique(fs: seq<Field>, i: nat, v: Expression, body: Body)
    requires i + 1 == |fs|
    requires AttrCount(body, fs[i].name) <= 1
    ensures AttrCount(WriteBody(fs, i, v, body), fs[i].name) == 1
  {
    var name := fs[i].name;
    var r := WriteBody(fs, i, v, body);
    WriteAtLastField(fs, i, v, body);
    AttrCountPositive(body, name);
    if HasAttribute(body, name) {
      assert SameShapes(body, r);
      AttrCountSameShapes(body, r, name);
    } else {
      var added := AttributeItem(Attribute(name, v, LastAttrDecor(body).GetOr(DefaultDecor)));
      AttrCountAppend(body, [added], name);
      assert [added][1..] == [];
    }
  }

  /**
   * A visit before the last field appends nothing. An attribute named by the
   * field is replaced whole only when exactly one field follows (the index
   * advances once entering the attribute and once more entering its value);
   * with more fields it is kept. When some block passes the field's test,
   * every block with the field's identifier is written one field further on,
   * labels or not; otherwise blocks are kept.
   */
  lemma WriteBeforeLastField(fs: seq<Field>, i: nat, v: Expression, body: Body)
    requires i + 1 < |fs|
    ensures var field := fs[i];
      var r := WriteBody(fs, i, v, body);
      |r| == |body| &&
      (forall p | 0 <= p < |body| && body[p].AttributeItem? ::
         r[p] == if IsFirstAttr(body, p, field.name) && i + 2 == |fs| then AttributeItem(body[p].attr.(value := v)) else body[p]) &&
      (forall p | 0 <= p < |body| && body[p].BlockItem? ::
         r[p] == if IsBlock(body[p], field.name) && Gate(body, field)
                 then BlockItem(body[p].block.(body := WriteBody(fs, i + 1, v, body[p].block.body)))
                 else body[p])
  {
    WriteBodyIsWritten(fs, i, v, body);
    forall p | 0 <= p < |body| && IsBlock(body[p], fs[i].name) && Gate(body, fs[i]) {
      WriteBodyIsWritten(fs, i + 1, v, body[p].block.body);
    }
  }

  /** Past the last field the visitor does nothing. */
  lemma WritePastLastField(fs: seq<Field>, i: nat, v: Expression, body: Body)
    requires i >= |fs|
    ensures WriteBody(fs, i, v, body) == body
  {
  }

  /** When the last name is an identifier, `write` never panics, and writing twice is writing once. */
  lemma WriteIdempotent(fields: seq<Field>, body: Body, value: Expression)
    requires |fields| > 0 ==> IsIdentifier(fields[|fields| - 1].name)
    ensures Write(fields, body, value).Returns?
    ensures Write(fields, Write(fields, body, value).value, value) == Write(fields, body, value)
  {
    WriteBodyIdempotent(fields, 0, value, body);
  }

  /** The visitor reaches the last field through a gated block on the way down. */
  lemma TerminalVisitedThroughBlock(fs: seq<Field>, i: nat, body: Body, p: int)
    requires i + 1 < |fs| && 0 <= p < |body|
    requires IsBlock(body[p], fs[i].name) && Gate(body, fs[i]) && TerminalVisited(fs, i + 1, body[p].block.body)
    ensures TerminalVisited(fs, i, body)
  {
  }

  /** A body holding no block with the first name is never visited past the root. */
  lemma NoDescentWithoutBlocks(fs: seq<Field>, body: Body)
    requires |fs| > 1
    requires forall p | 0 <= p < |body| :: !IsBlock(body[p], fs[0].name)
    ensures !TerminalVisited(fs, 0, body)
  {
  }
}
