/**
 * The first-match lookup engine (`src/lookup.rs`): an older variant of the
 * query engine that follows a list of plain names and keeps at most one
 * result, preferring an attribute over a block at every body.
 */
module Lookup {
  import opened Wrappers
  import opened Hcl
  import opened FilterParser
  import opened Matching
  import opened Query

  /** A portion of the document found by a lookup: an expression or a block's body. */
  datatype LookupResult = ExprFound(expr: Expression) | BodyFound(body: Body)

  predicate HasBlock(body: Body, ident: string) {
    exists p | 0 <= p < |body| :: IsBlock(body[p], ident)
  }

  /** `body[p]` is the first block with the identifier. */
  predicate IsFirstBlock(body: Body, p: int, ident: string) {
    0 <= p < |body| && IsBlock(body[p], ident) && forall q | 0 <= q < p :: !IsBlock(body[q], ident)
  }

  // ---------------------------------------------------------------------------
  // One name against a body

  /** `attr_lookup`: the value of the first attribute with the key. */
  function AttrLookup(name: string, body: Body): (r: Option<LookupResult>)
    ensures r.None? <==> !HasAttribute(body, name)
    ensures r.Some? ==> exists p | IsFirstAttr(body, p, name) :: r.value == ExprFound(body[p].attr.value)
  {
    if body == [] then None
    else if IsAttr(body[0], name) then
      assert IsFirstAttr(body, 0, name);
      Some(ExprFound(body[0].attr.value))
    else
      var r := AttrLookup(name, body[1..]);
      assert forall p | 1 <= p < |body| :: body[p] == body[1..][p - 1];
      if r.Some? then
        var p :| IsFirstAttr(body[1..], p, name) && r.value == ExprFound(body[1..][p].attr.value);
        assert IsFirstAttr(body, p + 1, name);
        r
      else
        r
  }

  /** `block_lookup`: the body of the first block with the identifier. */
  function BlockLookup(name: string, body: Body): (r: Option<LookupResult>)
    ensures r.None? <==> !HasBlock(body, name)
    ensures r.Some? ==> exists p | IsFirstBlock(body, p, name) :: r.value == BodyFound(body[p].block.body)
  {
    if body == [] then None
    else if IsBlock(body[0], name) then
      assert IsFirstBlock(body, 0, name);
      Some(BodyFound(body[0].block.body))
    else
      var r := BlockLookup(name, body[1..]);
      assert forall p | 1 <= p < |body| :: body[p] == body[1..][p - 1];
      if r.Some? then
        var p :| IsFirstBlock(body[1..], p, name) && r.value == BodyFound(body[1..][p].block.body);
        assert IsFirstBlock(body, p + 1, name);
        r
      else
        r
  }

  /** `body_lookup`: an attribute with the name wins over any block. */
  function BodyLookup(name: string, body: Body): (r: Option<LookupResult>)
    ensures HasAttribute(body, name) ==> r == AttrLookup(name, body) && r.Some? && r.value.ExprFound?
    ensures !HasAttribute(body, name) ==> r == BlockLookup(name, body)
    ensures r.None? <==> !HasAttribute(body, name) && !HasBlock(body, name)
  {
    var a := AttrLookup(name, body);
    if a.Some? then a else BlockLookup(name, body)
  }

  // ---------------------------------------------------------------------------
  // One name against the current result

  /**
   * `result_lookup`: nothing stays nothing; an object is looked up by
   * identifier key only (building the key panics when the name is not an
   * identifier); any other expression gives nothing; a body is looked up.
   */
  function ResultLookup(name: string, current: Option<LookupResult>): (r: Run<Option<LookupResult>>)
    ensures current.None? ==> r == Returns(None)
    ensures r.Panics? <==> current.Some? && current.value.ExprFound? && current.value.expr.Object? && !IsIdentifier(name)
    ensures r.Returns? && r.value.Some? && current.Some? && current.value.ExprFound? ==>
      current.value.expr.Object? &&
      exists p | 0 <= p < |current.value.expr.entries| ::
        current.value.expr.entries[p].key == IdentKey(name) && r.value.value == ExprFound(current.value.expr.entries[p].value)
  {
    match current
    case None => Returns(None)
    case Some(ExprFound(Object(entries))) =>
      if !IsIdentifier(name) then Panics
      else
        var v := ObjectGet(entries, IdentKey(name));
        if v.Some? then Returns(Some(ExprFound(v.value))) else Returns(None)
    case Some(ExprFound(Scalar(_))) => Returns(None)
    case Some(BodyFound(b)) => Returns(BodyLookup(name, b))
  }

  /** The `while` loop of `lookup_field`: each remaining name against the current result. */
  function LookupRest(names: seq<string>, current: Option<LookupResult>): Run<Option<LookupResult>> {
    if names == [] then Returns(current)
    else
      match ResultLookup(names[0], current)
      case Panics => Panics
      case Returns(next) => LookupRest(names[1..], next)
  }

  /** `lookup_field`: the parser never yields an empty filter, so the name list is non-empty. */
  function LookupField(names: seq<string>, body: Body): Run<Option<LookupResult>>
    requires |names| > 0
  {
    LookupRest(names[1..], BodyLookup(names[0], body))
  }

  // ---------------------------------------------------------------------------
  // Properties

  /** Once nothing is found, nothing is found for every remaining name, and nothing panics. */
  lemma {:induction false} NonePropagates(names: seq<string>)
    ensures LookupRest(names, None) == Returns(None)
  {
    if names != [] {
      NonePropagates(names[1..]);
    }
  }

  /**
   * Through an object only identifier keys are followed: the lookup finds a
   * value exactly when an entry has the identifier key, and a string-literal
   * key with the same text is never consulted.
   */
  lemma ObjectLookupByIdentOnly(name: string, entries: seq<ObjectEntry>)
    requires IsIdentifier(name)
    ensures ResultLookup(name, Some(ExprFound(Object(entries)))).Returns?
    ensures ResultLookup(name, Some(ExprFound(Object(entries)))).value.Some?
        <==> exists p | 0 <= p < |entries| :: entries[p].key == IdentKey(name)
  {
  }

  /** An object keyed only by the string literal of the name yields nothing. */
  lemma StringKeyIgnored(name: string, v: Expression)
    requires IsIdentifier(name)
    ensures ResultLookup(name, Some(ExprFound(Object([ObjectEntry(StrKey(name), v)])))) == Returns(None)
  {
    assert ObjectGet([ObjectEntry(StrKey(name), v)], IdentKey(name)).None?;
  }

  /** A non-object expression yields nothing, whatever the name. */
  lemma ScalarYieldsNothing(name: string, s: string)
    ensures ResultLookup(name, Some(ExprFound(Scalar(s)))) == Returns(None)
  {
  }

  /** A found body is continued by looking the name up in it. */
  lemma BodyContinues(names: seq<string>, b: Body)
    requires |names| > 0
    ensures LookupRest(names, Some(BodyFound(b))) == LookupRest(names[1..], BodyLookup(names[0], b))
  {
  }

  /** Whether a lookup result and a query result denote the same portion of the document. */
  predicate Agrees(l: LookupResult, q: QueryResult) {
    match q
    case ExprResult(e) => l == ExprFound(e)
    case BlockResult(b) => l == BodyFound(b.body)
  }

  lemma {:induction false} AttrLookupIsFirstAttrMatch(name: string, body: Body)
    ensures AttrLookup(name, body).None? <==> AttrQuery(name, body) == []
    ensures AttrLookup(name, body).Some? ==> Agrees(AttrLookup(name, body).value, AttrQuery(name, body)[0])
  {
    if body != [] {
      AttrLookupIsFirstAttrMatch(name, body[1..]);
      assert body == [body[0]] + body[1..];
      AttrQueryInDocumentOrder(name, [body[0]], body[1..], body[0]);
    }
  }

  lemma {:induction false} BlockLookupIsFirstBlockMatch(name: string, body: Body)
    ensures BlockLookup(name, body).None? <==> BlockQuery(NewField(name), body) == []
    ensures BlockLookup(name, body).Some? ==> Agrees(BlockLookup(name, body).value, BlockQuery(NewField(name), body)[0])
  {
    if body != [] {
      BlockLookupIsFirstBlockMatch(name, body[1..]);
      assert body == [body[0]] + body[1..];
      var s := body[0];
      if s.BlockItem? {
        BlockQueryInDocumentOrder(NewField(name), [s], body[1..], s.block);
        BlockPushesCount(NewField(name), s.block, BlockResult(s.block));
      } else {
        var dummy := Block("", [], []);
        BlockQueryInDocumentOrder(NewField(name), [s], body[1..], dummy);
        assert Blocks([s]) == [];
      }
    }
  }

  /**
   * At a body, the lookup of a name finds exactly the first result the query
   * engine produces for the unlabeled field of that name, and finds nothing
   * exactly when the query produces nothing.
   */
  lemma LookupIsFirstQueryMatch(name: string, body: Body)
    ensures BodyLookup(name, body).None? <==> BodyQuery(NewField(name), body) == []
    ensures BodyLookup(name, body).Some? ==> Agrees(BodyLookup(name, body).value, BodyQuery(NewField(name), body)[0])
  {
    AttrLookupIsFirstAttrMatch(name, body);
    BlockLookupIsFirstBlockMatch(name, body);
  }
}
