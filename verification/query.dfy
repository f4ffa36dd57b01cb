/**
 * The read-only query engine (`src/query.rs`): a breadth-first fan-out over
 * a working list of results. The first field is evaluated against the root
 * body; every later field against each result so far, and the per-result
 * match lists are concatenated in order.
 */
module Query {
  import opened Wrappers
  import opened Hcl
  import opened FilterParser
  import opened Matching
  import opened Seqs

  /** A portion of the document that matched the filter. */
  datatype QueryResult = ExprResult(expr: Expression) | BlockResult(block: Block)

  // ---------------------------------------------------------------------------
  // Evaluating one field against a body

  /** `attr_query`: the values of the attributes whose key is the name, in document order. */
  function AttrQuery(name: string, body: Body): seq<QueryResult> {
    AttrMatches(name, Attributes(body))
  }

  function AttrMatches(name: string, attrs: seq<Attribute>): seq<QueryResult> {
    if attrs == [] then []
    else (if attrs[0].key == name then [ExprResult(attrs[0].value)] else []) + AttrMatches(name, attrs[1..])
  }

  /** `block_query`: each block once per hit of the field's name/label test, in document order. */
  function BlockQuery(field: Field, body: Body): seq<QueryResult> {
    BlockMatches(field, Blocks(body))
  }

  function BlockMatches(field: Field, blocks: seq<Block>): seq<QueryResult> {
    if blocks == [] then []
    else BlockPushes(field, blocks[0], BlockResult(blocks[0])) + BlockMatches(field, blocks[1..])
  }

  /** `body_query`: attribute matches first, then block matches. */
  function BodyQuery(field: Field, body: Body): seq<QueryResult> {
    AttrQuery(field.name, body) + BlockQuery(field, body)
  }

  // ---------------------------------------------------------------------------
  // Evaluating one field against the working list

  function Found(o: Option<Expression>): seq<QueryResult> {
    if o.Some? then [ExprResult(o.value)] else []
  }

  /**
   * One arm of `result_query`. An object is looked up by identifier key
   * (building the key panics when the name is not an identifier), then by
   * string key; any other expression yields nothing; a block continues with
   * its body.
   */
  function StepQuery(field: Field, r: QueryResult): Run<seq<QueryResult>> {
    match r
    case ExprResult(Object(entries)) =>
      if !IsIdentifier(field.name) then Panics
      else Returns(Found(ObjectGet(entries, IdentKey(field.name))) + Found(ObjectGet(entries, StrKey(field.name))))
    case ExprResult(Scalar(_)) => Returns([])
    case BlockResult(b) => Returns(BodyQuery(field, b.body))
  }

  /** `result_query`: the per-result matches, concatenated in input order. */
  function ResultQuery(field: Field, results: seq<QueryResult>): Run<seq<QueryResult>> {
    if results == [] then Returns([])
    else
      match StepQuery(field, results[0])
      case Panics => Panics
      case Returns(head) =>
        match ResultQuery(field, results[1..])
        case Panics => Panics
        case Returns(tail) => Returns(head + tail)
  }

  /** The `while` loop of `query`: each remaining field against every result so far. */
  function QueryRest(fields: seq<Field>, results: seq<QueryResult>): Run<seq<QueryResult>> {
    if fields == [] then Returns(results)
    else
      match ResultQuery(fields[0], results)
      case Panics => Panics
      case Returns(next) => QueryRest(fields[1..], next)
  }

  /** `query`: the parser never yields an empty filter, so the field list is non-empty. */
  function Query(fields: seq<Field>, body: Body): Run<seq<QueryResult>>
    requires |fields| > 0
  {
    QueryRest(fields[1..], BodyQuery(fields[0], body))
  }

  // ---------------------------------------------------------------------------
  // Matching against a body

  lemma {:induction false} AttributesAppend(b1: Body, b2: Body)
    ensures Attributes(b1 + b2) == Attributes(b1) + Attributes(b2)
  {
    if b1 == [] {
      assert b1 + b2 == b2;
    } else {
      assert (b1 + b2)[1..] == b1[1..] + b2;
      AttributesAppend(b1[1..], b2);
    }
  }

  lemma {:induction false} BlocksAppend(b1: Body, b2: Body)
    ensures Blocks(b1 + b2) == Blocks(b1) + Blocks(b2)
  {
    if b1 == [] {
      assert b1 + b2 == b2;
    } else {
      assert (b1 + b2)[1..] == b1[1..] + b2;
      BlocksAppend(b1[1..], b2);
    }
  }

  lemma {:induction false} AttrMatchesAppend(name: string, a1: seq<Attribute>, a2: seq<Attribute>)
    ensures AttrMatches(name, a1 + a2) == AttrMatches(name, a1) + AttrMatches(name, a2)
  {
    if a1 == [] {
      assert a1 + a2 == a2;
    } else {
      var h := if a1[0].key == name then [ExprResult(a1[0].value)] else [];
      assert (a1 + a2)[0] == a1[0];
      assert (a1 + a2)[1..] == a1[1..] + a2;
      assert AttrMatches(name, a1 + a2) == h + AttrMatches(name, a1[1..] + a2);
      AttrMatchesAppend(name, a1[1..], a2);
      assert h + (AttrMatches(name, a1[1..]) + AttrMatches(name, a2))
          == (h + AttrMatches(name, a1[1..])) + AttrMatches(name, a2);
    }
  }

  lemma {:induction false} BlockMatchesAppend(field: Field, k1: seq<Block>, k2: seq<Block>)
    ensures BlockMatches(field, k1 + k2) == BlockMatches(field, k1) + BlockMatches(field, k2)
  {
    if k1 == [] {
      assert k1 + k2 == k2;
    } else {
      assert (k1 + k2)[1..] == k1[1..] + k2;
      BlockMatchesAppend(field, k1[1..], k2);
    }
  }

  /**
   * Attribute matches follow document order: matching a concatenation of
   * bodies concatenates the matches, and a single structure yields its value
   * exactly when it is an attribute with that key.
   */
  lemma AttrQueryInDocumentOrder(name: string, b1: Body, b2: Body, s: Structure)
    ensures AttrQuery(name, b1 + b2) == AttrQuery(name, b1) + AttrQuery(name, b2)
    ensures AttrQuery(name, [s]) == if IsAttr(s, name) then [ExprResult(s.attr.value)] else []
  {
    AttributesAppend(b1, b2);
    AttrMatchesAppend(name, Attributes(b1), Attributes(b2));
    assert [s][1..] == [];
    assert Attributes([s]) == if s.AttributeItem? then [s.attr] else [];
    if s.AttributeItem? {
      assert AttrMatches(name, [s.attr]) == (if s.attr.key == name then [ExprResult(s.attr.value)] else []) + AttrMatches(name, []);
    }
  }

  /**
   * Block matches follow document order, and a single block is emitted once
   * per hit: once when the field is unlabeled and the identifier equals the
   * name, once per equal (filter label, block label) pair when it is labeled.
   */
  lemma BlockQueryInDocumentOrder(field: Field, b1: Body, b2: Body, b: Block)
    ensures BlockQuery(field, b1 + b2) == BlockQuery(field, b1) + BlockQuery(field, b2)
    ensures |BlockQuery(field, [BlockItem(b)])| == BlockHits(field, b)
    ensures forall k | 0 <= k < BlockHits(field, b) :: BlockQuery(field, [BlockItem(b)])[k] == BlockResult(b)
  {
    BlocksAppend(b1, b2);
    BlockMatchesAppend(field, Blocks(b1), Blocks(b2));
    assert [BlockItem(b)][1..] == [];
    assert Blocks([BlockItem(b)]) == [b];
    assert BlockMatches(field, [b]) == BlockPushes(field, b, BlockResult(b)) + BlockMatches(field, []);
    BlockPushesCount(field, b, BlockResult(b));
  }

  /**
   * Every block occurrence in the body is emitted `BlockHits` times: exactly
   * once for an unlabeled field whose name is its identifier, never when it
   * shares no label with a labeled field, more than once when several label
   * pairs are equal.
   */
  lemma {:induction false} BlockQueryMultiplicity(field: Field, blocks: seq<Block>, b: Block)
    ensures Count(BlockMatches(field, blocks), BlockResult(b)) == Count(blocks, b) * BlockHits(field, b)
  {
    if blocks != [] {
      var h := blocks[0];
      var hits := BlockHits(field, b);
      BlockQueryMultiplicity(field, blocks[1..], b);
      var pushes := BlockPushes(field, h, BlockResult(h));
      BlockPushesCount(field, h, BlockResult(h));
      CountRepeated(pushes, BlockResult(h), BlockResult(b));
      CountAppend(pushes, BlockMatches(field, blocks[1..]), BlockResult(b));
      var m := Count(blocks[1..], b);
      if h == b {
        MulSucc(m, hits);
      }
    }
  }

  lemma MulSucc(m: nat, h: nat)
    ensures (m + 1) * h == m * h + h
  {
  }

  /** An unlabeled field emits every block with its name exactly once per occurrence. */
  lemma UnlabeledBlockQuery(name: string, body: Body, b: Block)
    ensures Count(BlockQuery(Field(name, []), body), BlockResult(b))
         == if b.ident == name then Count(Blocks(body), b) else 0
  {
    var f := Field(name, []);
    BlockQueryMultiplicity(f, Blocks(body), b);
    assert BlockHits(f, b) == if b.ident == name then 1 else 0;
  }

  /** A labeled field drops every block that shares none of its labels. */
  lemma LabeledBlockQueryDrops(field: Field, body: Body, b: Block)
    requires field.labels != [] && !SharesLabel(field.labels, b.labels)
    ensures BlockResult(b) !in BlockQuery(field, body)
  {
    LabelPairCountPositive(field.labels, b.labels);
    var hits := BlockHits(field, b);
    assert hits == 0;
    BlockQueryMultiplicity(field, Blocks(body), b);
    var emitted := BlockMatches(field, Blocks(body));
    assert Count(emitted, BlockResult(b)) == Count(Blocks(body), b) * hits;
    assert Count(emitted, BlockResult(b)) == 0;
    CountPositive(emitted, BlockResult(b));
  }

  /** A block can be emitted twice: one block label equal to two filter labels. */
  lemma LabeledBlockQueryDuplicates(b: Block)
    requires b.ident == "data" && b.labels == ["x"]
    ensures BlockQuery(Field("data", ["x", "x"]), [BlockItem(b)]) == [BlockResult(b), BlockResult(b)]
  {
    var field := Field("data", ["x", "x"]);
    BlockQueryInDocumentOrder(field, [], [], b);
    assert Count(b.labels, "x") == 1;
    assert LabelPairCount(field.labels, b.labels) == 2 by {
      assert field.labels[1..] == ["x"];
      assert field.labels[1..][1..] == [];
      assert LabelPairCount([], b.labels) == 0;
      assert LabelPairCount(["x"], b.labels) == 1 + LabelPairCount([], b.labels);
      assert LabelPairCount(field.labels, b.labels) == 1 + LabelPairCount(["x"], b.labels);
    }
  }

  /** Every emitted block passes the field's name/label test. */
  lemma {:induction false} BlockMatchesSelect(field: Field, blocks: seq<Block>)
    ensures forall r | r in BlockMatches(field, blocks) :: r.BlockResult? && r.block in blocks && Selects(field, r.block)
  {
    if blocks != [] {
      BlockMatchesSelect(field, blocks[1..]);
      BlockPushesCount(field, blocks[0], BlockResult(blocks[0]));
    }
  }

  lemma {:induction false} AttrMatchesAreExprs(name: string, attrs: seq<Attribute>)
    ensures forall r | r in AttrMatches(name, attrs) :: r.ExprResult?
  {
    if attrs != [] {
      AttrMatchesAreExprs(name, attrs[1..]);
    }
  }

  /**
   * `body_query` yields all attribute matches before all block matches: the
   * results up to the attribute count are expressions, the rest are blocks,
   * each passing the field's test.
   */
  lemma AttributesBeforeBlocks(field: Field, body: Body)
    ensures var r := BodyQuery(field, body);
      var k := |AttrQuery(field.name, body)|;
      && (forall x | 0 <= x < k :: r[x].ExprResult?)
      && (forall x | k <= x < |r| :: r[x].BlockResult? && Selects(field, r[x].block))
  {
    AttrMatchesAreExprs(field.name, Attributes(body));
    BlockMatchesSelect(field, Blocks(body));
    var r := BodyQuery(field, body);
    var k := |AttrQuery(field.name, body)|;
    forall x | 0 <= x < k ensures r[x].ExprResult? {
      assert r[x] == AttrQuery(field.name, body)[x];
    }
    forall x | k <= x < |r| ensures r[x].BlockResult? && Selects(field, r[x].block) {
      assert r[x] == BlockQuery(field, body)[x - k];
    }
  }

  // ---------------------------------------------------------------------------
  // The fan-out over the working list

  /**
   * An expression result is traversed only when it is an object: at most two
   * results, the identifier-key match first, then the string-key match; any
   * other expression yields nothing and raises nothing.
   */
  lemma ExprStep(field: Field, e: Expression)
    ensures e.Scalar? ==> StepQuery(field, ExprResult(e)) == Returns([])
    ensures e.Object? && IsIdentifier(field.name) ==>
      var r := StepQuery(field, ExprResult(e)).value;
      && |r| <= 2
      && (forall x | 0 <= x < |r| :: r[x].ExprResult?)
      && (ObjectGet(e.entries, IdentKey(field.name)).Some? ==> r[0] == ExprResult(ObjectGet(e.entries, IdentKey(field.name)).value))
      && (ObjectGet(e.entries, StrKey(field.name)).Some? ==> r[|r| - 1] == ExprResult(ObjectGet(e.entries, StrKey(field.name)).value))
      && (|r| == 0 <==> forall p | 0 <= p < |e.entries| :: !KeyNames(e.entries[p].key, field.name))
    ensures e.Object? && !IsIdentifier(field.name) ==> StepQuery(field, ExprResult(e)) == Panics
  {
    if e.Object? && IsIdentifier(field.name) {
      var es := e.entries;
      var i := ObjectGet(es, IdentKey(field.name));
      var s := ObjectGet(es, StrKey(field.name));
      if forall p | 0 <= p < |es| :: !KeyNames(es[p].key, field.name) {
        assert forall p | 0 <= p < |es| :: es[p].key != IdentKey(field.name) && es[p].key != StrKey(field.name) by {
          forall p | 0 <= p < |es| ensures es[p].key != IdentKey(field.name) && es[p].key != StrKey(field.name) {
            assert !KeyNames(es[p].key, field.name);
          }
        }
      } else {
        var p :| 0 <= p < |es| && KeyNames(es[p].key, field.name);
        if es[p].key.IdentKey? { assert i.Some?; } else { assert s.Some?; }
      }
    }
  }

  /** The fan-out distributes over the working list: results are concatenated in input order. */
  lemma {:induction false} ResultQueryAppend(field: Field, xs: seq<QueryResult>, ys: seq<QueryResult>)
    ensures ResultQuery(field, xs + ys)
         == match (ResultQuery(field, xs), ResultQuery(field, ys))
            case (Returns(a), Returns(b)) => Returns(a + b)
            case _ => Panics
  {
    if xs == [] {
      assert xs + ys == ys;
      match ResultQuery(field, ys)
      case Panics =>
      case Returns(b) => assert [] + b == b;
    } else {
      assert (xs + ys)[0] == xs[0];
      assert (xs + ys)[1..] == xs[1..] + ys;
      ResultQueryAppend(field, xs[1..], ys);
      match StepQuery(field, xs[0])
      case Panics =>
      case Returns(head) =>
        if ResultQuery(field, xs[1..]).Returns? && ResultQuery(field, ys).Returns? {
          var a, b := ResultQuery(field, xs[1..]).value, ResultQuery(field, ys).value;
          assert head + (a + b) == (head + a) + b;
        }
    }
  }

  /** A block result is continued by matching the field against its body. */
  lemma ResultQueryOfBlock(field: Field, b: Block)
    ensures ResultQuery(field, [BlockResult(b)]) == Returns(BodyQuery(field, b.body))
  {
    assert [BlockResult(b)][1..] == [];
    assert BodyQuery(field, b.body) + [] == BodyQuery(field, b.body);
  }

  /** Fan-out: N block results continue as the concatenation of their N bodies' matches. */
  lemma {:induction false} FanOutOverBlocks(field: Field, blocks: seq<Block>)
    ensures ResultQuery(field, BlockResults(blocks)) == Returns(BodyMatchesOf(field, blocks))
  {
    if blocks != [] {
      assert BlockResults(blocks) == [BlockResult(blocks[0])] + BlockResults(blocks[1..]);
      ResultQueryAppend(field, [BlockResult(blocks[0])], BlockResults(blocks[1..]));
      ResultQueryOfBlock(field, blocks[0]);
      FanOutOverBlocks(field, blocks[1..]);
    }
  }

  function BlockResults(blocks: seq<Block>): seq<QueryResult> {
    if blocks == [] then [] else [BlockResult(blocks[0])] + BlockResults(blocks[1..])
  }

  function BodyMatchesOf(field: Field, blocks: seq<Block>): seq<QueryResult> {
    if blocks == [] then [] else BodyQuery(field, blocks[0].body) + BodyMatchesOf(field, blocks[1..])
  }

  /** The fan-out panics exactly when an object must be looked up under a non-identifier name. */
  lemma {:induction false} ResultQueryPanics(field: Field, results: seq<QueryResult>)
    ensures ResultQuery(field, results).Panics?
        <==> !IsIdentifier(field.name) && exists x | 0 <= x < |results| :: results[x].ExprResult? && results[x].expr.Object?
  {
    if results != [] {
      ResultQueryPanics(field, results[1..]);
      if exists x | 0 <= x < |results[1..]| :: results[1..][x].ExprResult? && results[1..][x].expr.Object? {
        var x :| 0 <= x < |results[1..]| && results[1..][x].ExprResult? && results[1..][x].expr.Object?;
        assert results[x + 1] == results[1..][x];
      }
      if exists x | 0 <= x < |results| :: results[x].ExprResult? && results[x].expr.Object? {
        var x :| 0 <= x < |results| && results[x].ExprResult? && results[x].expr.Object?;
        if x > 0 { assert results[1..][x - 1] == results[x]; }
      }
    }
  }

  /** Every block a fan-out step yields passes the step's field. */
  lemma {:induction false} ResultQueryBlocksSelect(field: Field, results: seq<QueryResult>)
    requires ResultQuery(field, results).Returns?
    ensures forall r | r in ResultQuery(field, results).value :: r.BlockResult? ==> Selects(field, r.block)
  {
    if results != [] {
      ResultQueryBlocksSelect(field, results[1..]);
      var head := StepQuery(field, results[0]).value;
      match results[0]
      case ExprResult(e) =>
        assert forall r | r in head :: r.ExprResult?;
      case BlockResult(b) =>
        AttributesBeforeBlocks(field, b.body);
        assert forall r | r in head :: r.BlockResult? ==> Selects(field, r.block) by {
          forall r | r in head && r.BlockResult? ensures Selects(field, r.block) {
            var x :| 0 <= x < |head| && head[x] == r;
            AttrMatchesAreExprs(field.name, Attributes(b.body));
          }
        }
    }
  }

  // ---------------------------------------------------------------------------
  // The whole query

  /** A single field is evaluated against the root body alone. */
  lemma QuerySingleField(field: Field, body: Body)
    ensures Query([field], body) == Returns(BodyQuery(field, body))
  {
    assert [field][1..] == [];
  }

  lemma {:induction false} QueryRestAppend(fields: seq<Field>, f: Field, results: seq<QueryResult>)
    ensures QueryRest(fields + [f], results)
         == match QueryRest(fields, results)
            case Panics => Panics
            case Returns(rs) => ResultQuery(f, rs)
  {
    if fields == [] {
      assert [f][1..] == [];
      assert fields + [f] == [f];
      match ResultQuery(f, results)
      case Panics =>
      case Returns(next) =>
    } else {
      assert (fields + [f])[0] == fields[0];
      assert (fields + [f])[1..] == fields[1..] + [f];
      match ResultQuery(fields[0], results)
      case Panics =>
      case Returns(next) =>
        QueryRestAppend(fields[1..], f, next);
    }
  }

  /** Each later field is evaluated against every result of the fields before it. */
  lemma QueryAppendField(fields: seq<Field>, f: Field, body: Body)
    requires |fields| > 0
    ensures Query(fields + [f], body)
         == match Query(fields, body)
            case Panics => Panics
            case Returns(rs) => ResultQuery(f, rs)
  {
    assert (fields + [f])[0] == fields[0];
    assert (fields + [f])[1..] == fields[1..] + [f];
    QueryRestAppend(fields[1..], f, BodyQuery(fields[0], body));
  }

  /** A query whose later names are all identifiers never panics. */
  lemma {:induction false} QueryRestReturns(fields: seq<Field>, results: seq<QueryResult>)
    requires forall k | 0 <= k < |fields| :: IsIdentifier(fields[k].name)
    ensures QueryRest(fields, results).Returns?
  {
    if fields != [] {
      ResultQueryPanics(fields[0], results);
      QueryRestReturns(fields[1..], ResultQuery(fields[0], results).value);
    }
  }

  lemma QueryReturns(fields: seq<Field>, body: Body)
    requires |fields| > 0
    requires forall k | 1 <= k < |fields| :: IsIdentifier(fields[k].name)
    ensures Query(fields, body).Returns?
  {
    QueryRestReturns(fields[1..], BodyQuery(fields[0], body));
  }

  /**
   * Every block in the final result has the last field's name as its
   * identifier and shares a label with it when that field is labeled.
   */
  lemma QueryBlocksMatchLastField(fields: seq<Field>, body: Body)
    requires |fields| > 0
    requires Query(fields, body).Returns?
    ensures forall r | r in Query(fields, body).value :: r.BlockResult? ==> Selects(fields[|fields| - 1], r.block)
  {
    var last := fields[|fields| - 1];
    if |fields| == 1 {
      QuerySingleField(fields[0], body);
      assert fields == [last];
      BodyBlocksSelect(last, body);
    } else {
      var init := fields[..|fields| - 1];
      assert fields == init + [last];
      QueryAppendField(init, last, body);
      ResultQueryBlocksSelect(last, Query(init, body).value);
    }
  }

  /** Every block one field yields from a body passes that field's test. */
  lemma BodyBlocksSelect(field: Field, body: Body)
    ensures forall r | r in BodyQuery(field, body) :: r.BlockResult? ==> Selects(field, r.block)
  {
    AttributesBeforeBlocks(field, body);
    AttrMatchesAreExprs(field.name, Attributes(body));
    var rs := BodyQuery(field, body);
    forall r | r in rs && r.BlockResult? ensures Selects(field, r.block) {
      var k :| 0 <= k < |rs| && rs[k] == r;
    }
  }
}
