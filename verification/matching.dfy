/**
 * The name/label test shared by the query, write and delete engines
 * (`block_query` in `src/query.rs`, the first loop of `visit_body_mut` in
 * `src/write.rs` and `src/delete.rs`). A block passes a field when its
 * identifier equals the field's name and, for a labeled field, once per
 * equal (filter label, block label) pair.
 */
module Matching {
  import opened Hcl
  import opened FilterParser
  import opened Seqs

  // ---------------------------------------------------------------------------
  // The nested label loop

  /** `for filter_label in fls { for block_label in bls { if equal { push x } } }` */
  function LabelLoop<T>(fls: seq<string>, bls: seq<string>, x: T): seq<T> {
    if fls == [] then [] else InnerLabelLoop(fls[0], bls, x) + LabelLoop(fls[1..], bls, x)
  }

  function InnerLabelLoop<T>(fl: string, bls: seq<string>, x: T): seq<T> {
    if bls == [] then [] else (if bls[0] == fl then [x] else []) + InnerLabelLoop(fl, bls[1..], x)
  }

  /** Number of equal (filter label, block label) pairs. */
  function LabelPairCount(fls: seq<string>, bls: seq<string>): nat {
    if fls == [] then 0 else Count(bls, fls[0]) + LabelPairCount(fls[1..], bls)
  }

  /** Some filter label equals some block label. */
  predicate SharesLabel(fls: seq<string>, bls: seq<string>) {
    exists x, y | 0 <= x < |fls| && 0 <= y < |bls| :: fls[x] == bls[y]
  }

  /** What one block pushes for a field: `x` once per hit, nothing when the identifier differs. */
  function BlockPushes<T>(field: Field, b: Block, x: T): seq<T> {
    if b.ident != field.name then []
    else (if field.labels == [] then [x] else []) + LabelLoop(field.labels, b.labels, x)
  }

  /** How many times a block is pushed for a field. */
  function BlockHits(field: Field, b: Block): nat {
    if b.ident != field.name then 0
    else if field.labels == [] then 1
    else LabelPairCount(field.labels, b.labels)
  }

  /** The block passes the field's name/label test at least once. */
  predicate Selects(field: Field, b: Block) {
    b.ident == field.name && (field.labels == [] || SharesLabel(field.labels, b.labels))
  }

  /** Some block of the body passes the field's test. */
  predicate Gate(body: Body, field: Field) {
    exists p | 0 <= p < |body| :: body[p].BlockItem? && Selects(field, body[p].block)
  }

  lemma {:induction false} InnerLabelLoopCount<T>(fl: string, bls: seq<string>, x: T)
    ensures |InnerLabelLoop(fl, bls, x)| == Count(bls, fl)
    ensures forall k | 0 <= k < |InnerLabelLoop(fl, bls, x)| :: InnerLabelLoop(fl, bls, x)[k] == x
  {
    if bls != [] {
      InnerLabelLoopCount(fl, bls[1..], x);
    }
  }

  /** The nested loop pushes `x` exactly once per equal label pair, and nothing else. */
  lemma {:induction false} LabelLoopCount<T>(fls: seq<string>, bls: seq<string>, x: T)
    ensures |LabelLoop(fls, bls, x)| == LabelPairCount(fls, bls)
    ensures forall k | 0 <= k < |LabelLoop(fls, bls, x)| :: LabelLoop(fls, bls, x)[k] == x
  {
    if fls != [] {
      InnerLabelLoopCount(fls[0], bls, x);
      LabelLoopCount(fls[1..], bls, x);
    }
  }

  /** A label pair count is positive exactly when the two label lists share a label. */
  lemma {:induction false} LabelPairCountPositive(fls: seq<string>, bls: seq<string>)
    ensures LabelPairCount(fls, bls) > 0 <==> SharesLabel(fls, bls)
  {
    if fls != [] {
      LabelPairCountPositive(fls[1..], bls);
      CountPositive(bls, fls[0]);
      assert SharesLabel(fls, bls) <==> fls[0] in bls || SharesLabel(fls[1..], bls) by {
        if SharesLabel(fls, bls) {
          var x, y :| 0 <= x < |fls| && 0 <= y < |bls| && fls[x] == bls[y];
          if x > 0 { assert fls[1..][x - 1] == bls[y]; }
        }
        if fls[0] in bls {
          var y :| 0 <= y < |bls| && bls[y] == fls[0];
          assert fls[0] == bls[y];
        }
        if SharesLabel(fls[1..], bls) {
          var x, y :| 0 <= x < |fls[1..]| && 0 <= y < |bls| && fls[1..][x] == bls[y];
          assert fls[x + 1] == bls[y];
        }
      }
    }
  }

  /**
   * A block is pushed `BlockHits` times, each push is `x`, and it is pushed
   * at all exactly when it passes the field's test.
   */
  lemma BlockPushesCount<T>(field: Field, b: Block, x: T)
    ensures |BlockPushes(field, b, x)| == BlockHits(field, b)
    ensures forall k | 0 <= k < |BlockPushes(field, b, x)| :: BlockPushes(field, b, x)[k] == x
    ensures BlockHits(field, b) > 0 <==> Selects(field, b)
  {
    LabelLoopCount(field.labels, b.labels, x);
    LabelPairCountPositive(field.labels, b.labels);
    if field.labels == [] {
      assert LabelLoop(field.labels, b.labels, x) == [];
    }
  }

  // ---------------------------------------------------------------------------
  // The first loop of the write and delete visitors

  /** The keys collected from the attributes whose key equals the name. */
  function MatchingAttrKeys(body: Body, name: string): (keys: seq<string>)
    ensures forall k | 0 <= k < |keys| :: keys[k] == name
    ensures |keys| == AttrCount(body, name)
    ensures |keys| > 0 <==> HasAttribute(body, name)
  {
    if body == [] then []
    else
      var rest := MatchingAttrKeys(body[1..], name);
      assert HasAttribute(body, name) <==> IsAttr(body[0], name) || HasAttribute(body[1..], name) by {
        if HasAttribute(body, name) {
          var p :| 0 <= p < |body| && IsAttr(body[p], name);
          if p > 0 { assert IsAttr(body[1..][p - 1], name); }
        }
        if HasAttribute(body[1..], name) {
          var p :| 0 <= p < |body[1..]| && IsAttr(body[1..][p], name);
          assert IsAttr(body[p + 1], name);
        }
      }
      match body[0]
      case AttributeItem(a) => (if a.key == name then [a.key] else []) + rest
      case BlockItem(_) => rest
  }

  /** The identifiers collected from the blocks, one per hit. */
  function MatchingBlockIdents(body: Body, field: Field): (idents: seq<string>)
    ensures forall k | 0 <= k < |idents| :: idents[k] == field.name
    ensures |idents| > 0 <==> Gate(body, field)
  {
    if body == [] then []
    else
      var rest := MatchingBlockIdents(body[1..], field);
      assert Gate(body, field) <==>
        (body[0].BlockItem? && Selects(field, body[0].block)) || Gate(body[1..], field) by {
        if Gate(body, field) {
          var p :| 0 <= p < |body| && body[p].BlockItem? && Selects(field, body[p].block);
          if p > 0 { assert body[1..][p - 1] == body[p]; }
        }
        if Gate(body[1..], field) {
          var p :| 0 <= p < |body[1..]| && body[1..][p].BlockItem? && Selects(field, body[1..][p].block);
          assert body[p + 1] == body[1..][p];
        }
      }
      match body[0]
      case AttributeItem(_) => rest
      case BlockItem(b) =>
        BlockPushesCount(field, b, b.ident);
        BlockPushes(field, b, b.ident) + rest
  }

  /** Two bodies with the same shapes, item by item, pass the same gate. */
  lemma SameShapesSameGate(b1: Body, b2: Body, field: Field)
    requires |b1| == |b2|
    requires forall p | 0 <= p < |b1| :: SameShape(b1[p], b2[p])
    ensures Gate(b1, field) <==> Gate(b2, field)
  {
    if Gate(b1, field) {
      var p :| 0 <= p < |b1| && b1[p].BlockItem? && Selects(field, b1[p].block);
      assert SameShape(b1[p], b2[p]);
    }
    if Gate(b2, field) {
      var p :| 0 <= p < |b2| && b2[p].BlockItem? && Selects(field, b2[p].block);
      assert SameShape(b1[p], b2[p]);
    }
  }
}
