/**
 * The abstract HCL document tree the engines traverse, and the contracts of
 * the tree-library calls they make (`hcl-rs` and `hcl-edit` are modelled by
 * the same tree: the engines never depend on their differences).
 *
 * A body is an ordered sequence of structures; a structure is an attribute
 * `key = value` or a block `ident "label" ... { body }`; an expression is an
 * opaque scalar or an object whose entries are keyed by an identifier, by a
 * string literal, or by some other expression.
 */
module Hcl {
  import opened Wrappers
  import opened Seqs

  /** Whitespace and comments around a node; the engines only copy it. */
  datatype Decor = Decor(prefix: string, suffix: string)

  /** The decor of a freshly built node (`Decor::default()`). */
  const DefaultDecor: Decor := Decor("", "")

  datatype ObjectKey =
    | IdentKey(ident: string)     // `{ foo = 1 }`
    | StrKey(text: string)        // `{ "foo" = 1 }`
    | OtherKey(source: string)    // any other key expression, e.g. `{ (var.k) = 1 }`

  datatype Expression =
    | Scalar(source: string)      // every non-object expression, opaque
    | Object(entries: seq<ObjectEntry>)

  datatype ObjectEntry = ObjectEntry(key: ObjectKey, value: Expression)

  datatype Attribute = Attribute(key: string, value: Expression, decor: Decor)

  datatype Block = Block(ident: string, labels: seq<string>, body: seq<Structure>)

  datatype Structure = AttributeItem(attr: Attribute) | BlockItem(block: Block)

  type Body = seq<Structure>

  /** The attribute structure `key = value` with the given decor. */
  function Attr(key: string, value: Expression, d: Decor): Structure {
    AttributeItem(Attribute(key, value, d))
  }

  // ---------------------------------------------------------------------------
  // Identifiers

  predicate IsIdStart(c: char) {
    ('a' <= c <= 'z') || ('A' <= c <= 'Z') || c == '_'
  }

  predicate IsIdContinue(c: char) {
    IsIdStart(c) || ('0' <= c <= '9') || c == '-'
  }

  /**
   * Whether `Identifier::new(s)` / `Ident::new(s)` accept `s`: non-empty, an
   * identifier-start character followed by identifier characters or dashes.
   */
  predicate IsIdentifier(s: string) {
    |s| > 0 && IsIdStart(s[0]) && forall k | 1 <= k < |s| :: IsIdContinue(s[k])
  }

  // ---------------------------------------------------------------------------
  // Structures of a body

  predicate IsAttr(s: Structure, key: string) {
    s.AttributeItem? && s.attr.key == key
  }

  predicate IsBlock(s: Structure, ident: string) {
    s.BlockItem? && s.block.ident == ident
  }

  predicate HasAttribute(body: Body, key: string) {
    exists p | 0 <= p < |body| :: IsAttr(body[p], key)
  }

  /** `body[p]` is the attribute `Body::get_attribute_mut(key)` returns. */
  predicate IsFirstAttr(body: Body, p: int, key: string) {
    0 <= p < |body| && IsAttr(body[p], key) && forall q | 0 <= q < p :: !IsAttr(body[q], key)
  }

  /** Two structures agree on everything but an attribute's value or a block's body. */
  predicate SameShape(s: Structure, t: Structure) {
    match s
    case AttributeItem(a) => t.AttributeItem? && t.attr.key == a.key && t.attr.decor == a.decor
    case BlockItem(b) => t.BlockItem? && t.block.ident == b.ident && t.block.labels == b.labels
  }

  /** Two bodies agree item by item on everything but values and block bodies. */
  predicate SameShapes(b1: Body, b2: Body) {
    |b1| == |b2| && forall p | 0 <= p < |b1| :: SameShape(b1[p], b2[p])
  }

  /**
   * `r` is obtained from `body` by dropping structures and rewriting values
   * and block bodies: what remains keeps its shape and its relative order.
   */
  predicate ShapeSubsequence(r: Body, body: Body)
    decreases |body|
  {
    if r == [] then true
    else if body == [] then false
    else (SameShape(body[0], r[0]) && ShapeSubsequence(r[1..], body[1..])) || ShapeSubsequence(r, body[1..])
  }

  lemma {:induction false} SameShapesSubsequence(body: Body, r: Body)
    requires SameShapes(body, r)
    ensures ShapeSubsequence(r, body)
  {
    if r != [] {
      SameShapesSubsequence(body[1..], r[1..]);
    }
  }

  /** `b2` starts with items of the same shapes as `b1`, in the same order. */
  predicate ShapePrefix(b1: Body, b2: Body) {
    |b1| <= |b2| && forall p | 0 <= p < |b1| :: SameShape(b1[p], b2[p])
  }

  lemma ShapePrefixKeepsFirstAttr(b1: Body, b2: Body, key: string)
    requires ShapePrefix(b1, b2)
    ensures forall p | 0 <= p < |b1| :: IsFirstAttr(b1, p, key) <==> IsFirstAttr(b2, p, key)
    ensures HasAttribute(b1, key) ==> HasAttribute(b2, key)
  {
    forall p | 0 <= p < |b1|
      ensures IsFirstAttr(b1, p, key) <==> IsFirstAttr(b2, p, key)
    {
      assert forall q | 0 <= q <= p :: IsAttr(b1[q], key) <==> IsAttr(b2[q], key) by {
        forall q | 0 <= q <= p ensures IsAttr(b1[q], key) <==> IsAttr(b2[q], key) {
          assert SameShape(b1[q], b2[q]);
        }
      }
    }
    if HasAttribute(b1, key) {
      var p :| 0 <= p < |b1| && IsAttr(b1[p], key);
      assert SameShape(b1[p], b2[p]);
    }
  }

  /** Number of attributes with the key. */
  function AttrCount(body: Body, key: string): nat {
    if body == [] then 0 else (if IsAttr(body[0], key) then 1 else 0) + AttrCount(body[1..], key)
  }

  lemma {:induction false} AttrCountSameShapes(b1: Body, b2: Body, key: string)
    requires SameShapes(b1, b2)
    ensures AttrCount(b1, key) == AttrCount(b2, key)
  {
    if b1 != [] {
      assert SameShape(b1[0], b2[0]);
      AttrCountSameShapes(b1[1..], b2[1..], key);
    }
  }

  lemma {:induction false} AttrCountAppend(b1: Body, b2: Body, key: string)
    ensures AttrCount(b1 + b2, key) == AttrCount(b1, key) + AttrCount(b2, key)
  {
    if b1 == [] {
      assert b1 + b2 == b2;
    } else {
      assert (b1 + b2)[1..] == b1[1..] + b2;
      AttrCountAppend(b1[1..], b2, key);
    }
  }

  lemma {:induction false} AttrCountPositive(body: Body, key: string)
    ensures AttrCount(body, key) > 0 <==> HasAttribute(body, key)
  {
    if body != [] {
      AttrCountPositive(body[1..], key);
      if HasAttribute(body, key) {
        var p :| 0 <= p < |body| && IsAttr(body[p], key);
        if p > 0 { assert IsAttr(body[1..][p - 1], key); }
      }
      if HasAttribute(body[1..], key) {
        var p :| 0 <= p < |body[1..]| && IsAttr(body[1..][p], key);
        assert IsAttr(body[p + 1], key);
      }
    }
  }

  /** The attributes of a body, in document order (`Body::attributes`). */
  function Attributes(body: Body): (r: seq<Attribute>)
    ensures |r| <= |body|
    ensures forall a :: a in r <==> AttributeItem(a) in body
  {
    if body == [] then []
    else
      assert forall s :: s in body <==> s == body[0] || s in body[1..];
      match body[0]
      case AttributeItem(a) => [a] + Attributes(body[1..])
      case BlockItem(_) => Attributes(body[1..])
  }

  /** The blocks of a body, in document order (`Body::blocks`). */
  function Blocks(body: Body): (r: seq<Block>)
    ensures |r| <= |body|
    ensures forall b :: b in r <==> BlockItem(b) in body
  {
    if body == [] then []
    else
      assert forall s :: s in body <==> s == body[0] || s in body[1..];
      match body[0]
      case AttributeItem(_) => Blocks(body[1..])
      case BlockItem(b) => [b] + Blocks(body[1..])
  }

  // ---------------------------------------------------------------------------
  // Library calls on bodies

  /**
   * `Body::remove_attribute(key)`: removes the first attribute with the key,
   * leaving every other structure in place.
   */
  function RemoveAttribute(body: Body, key: string): (r: Body)
    ensures HasAttribute(body, key) <==> |r| == |body| - 1
    ensures !HasAttribute(body, key) ==> r == body
    ensures AttrCount(r, key) == if HasAttribute(body, key) then AttrCount(body, key) - 1 else 0
    ensures forall p | IsFirstAttr(body, p, key) :: r == body[..p] + body[p + 1..]
  {
    if body == [] then []
    else if IsAttr(body[0], key) then
      assert forall p | IsFirstAttr(body, p, key) :: p == 0;
      assert body[..0] + body[1..] == body[1..];
      body[1..]
    else
      var rest := RemoveAttribute(body[1..], key);
      assert HasAttribute(body, key) <==> HasAttribute(body[1..], key) by {
        if HasAttribute(body, key) {
          var p :| 0 <= p < |body| && IsAttr(body[p], key);
          assert IsAttr(body[1..][p - 1], key);
        }
        if HasAttribute(body[1..], key) {
          var p :| 0 <= p < |body[1..]| && IsAttr(body[1..][p], key);
          assert IsAttr(body[p + 1], key);
        }
      }
      assert ([body[0]] + rest)[1..] == rest;
      RemoveAttributeStep(body, key, rest);
      [body[0]] + rest
  }

  /** Removing the first attribute from the tail of a body whose head is kept. */
  lemma RemoveAttributeStep(body: Body, key: string, rest: Body)
    requires body != [] && !IsAttr(body[0], key)
    requires forall p | IsFirstAttr(body[1..], p, key) :: rest == body[1..][..p] + body[1..][p + 1..]
    ensures forall p | IsFirstAttr(body, p, key) :: [body[0]] + rest == body[..p] + body[p + 1..]
  {
    forall p | IsFirstAttr(body, p, key) ensures [body[0]] + rest == body[..p] + body[p + 1..] {
      assert IsFirstAttr(body[1..], p - 1, key) by {
        forall q | 0 <= q < p - 1 ensures !IsAttr(body[1..][q], key) {
          assert body[1..][q] == body[q + 1];
        }
      }
      assert body[..p] == [body[0]] + body[1..][..p - 1];
      assert body[p + 1..] == body[1..][p..];
    }
  }

  /**
   * `Body::remove_blocks(ident)`: removes every block with the identifier and
   * keeps every other structure, as often as it occurs and in its order.
   */
  function RemoveBlocks(body: Body, ident: string): (r: Body)
    ensures forall s :: s in r <==> s in body && !IsBlock(s, ident)
    ensures |r| <= |body|
    ensures Subsequence(r, body)
    ensures forall s :: Count(r, s) == if IsBlock(s, ident) then 0 else Count(body, s)
  {
    if body == [] then []
    else
      assert forall s :: s in body <==> s == body[0] || s in body[1..];
      var rest := RemoveBlocks(body[1..], ident);
      var head := if IsBlock(body[0], ident) then [] else [body[0]];
      RemoveBlocksStep(body, ident, head, rest);
      head + rest
  }

  /** One step of `RemoveBlocks`: the head is kept or dropped in front of the tail's result. */
  lemma RemoveBlocksStep(body: Body, ident: string, head: Body, rest: Body)
    requires body != []
    requires head == if IsBlock(body[0], ident) then [] else [body[0]]
    requires forall s | s in rest :: !IsBlock(s, ident)
    requires Subsequence(rest, body[1..])
    requires forall s :: Count(rest, s) == if IsBlock(s, ident) then 0 else Count(body[1..], s)
    ensures Subsequence(head + rest, body)
    ensures forall s :: Count(head + rest, s) == if IsBlock(s, ident) then 0 else Count(body, s)
  {
    forall s ensures Count(head + rest, s) == if IsBlock(s, ident) then 0 else Count(body, s) {
      CountAppend(head, rest, s);
    }
    if head == [] {
      assert head + rest == rest;
      if rest != [] {
        assert rest[0] in rest;
      }
    } else {
      assert (head + rest)[1..] == rest;
    }
  }

  /**
   * `Body::insert(body.len(), attr)`: appends the attribute unless the body
   * already holds an attribute with its key, in which case nothing changes.
   */
  function Insert(body: Body, attr: Attribute): (r: Body)
    ensures HasAttribute(r, attr.key)
    ensures HasAttribute(body, attr.key) ==> r == body
    ensures !HasAttribute(body, attr.key) ==> r == body + [AttributeItem(attr)]
  {
    if HasAttribute(body, attr.key) then body
    else
      var r := body + [AttributeItem(attr)];
      assert IsAttr(r[|body|], attr.key);
      r
  }

  // ---------------------------------------------------------------------------
  // Objects

  /** An entry key names `name`: an identifier key or a string-literal key equal to it. */
  predicate KeyNames(key: ObjectKey, name: string) {
    (key.IdentKey? && key.ident == name) || (key.StrKey? && key.text == name)
  }

  /** `entries[p]` is the first entry with its key: the one the object's map lookups find. */
  predicate IsFirstKey(entries: seq<ObjectEntry>, p: int) {
    0 <= p < |entries| && forall q | 0 <= q < p :: entries[q].key != entries[p].key
  }

  /** `Object::get(key)`: the value bound to the key, if any. */
  function ObjectGet(entries: seq<ObjectEntry>, key: ObjectKey): (r: Option<Expression>)
    ensures r.None? <==> forall p | 0 <= p < |entries| :: entries[p].key != key
    ensures r.Some? ==> exists p | IsFirstKey(entries, p) :: entries[p].key == key && entries[p].value == r.value
  {
    if entries == [] then None
    else if entries[0].key == key then
      assert IsFirstKey(entries, 0);
      Some(entries[0].value)
    else
      var r := ObjectGet(entries[1..], key);
      if r.Some? then
        var p :| IsFirstKey(entries[1..], p) && entries[1..][p].key == key && entries[1..][p].value == r.value;
        assert IsFirstKey(entries, p + 1);
        r
      else
        assert forall p | 1 <= p < |entries| :: entries[p] == entries[1..][p - 1];
        r
  }

  /** `entries[p]` is the first entry with the key. */
  predicate IsFirstEntry(entries: seq<ObjectEntry>, p: int, key: ObjectKey) {
    0 <= p < |entries| && entries[p].key == key && forall q | 0 <= q < p :: entries[q].key != key
  }

  predicate HasKey(entries: seq<ObjectEntry>, key: ObjectKey) {
    exists p | 0 <= p < |entries| :: entries[p].key == key
  }

  /** `Object::remove(key)`: removes the first entry with the key, keeping the others in order. */
  function RemoveEntry(entries: seq<ObjectEntry>, key: ObjectKey): (r: seq<ObjectEntry>)
    ensures !HasKey(entries, key) ==> r == entries
    ensures forall p | IsFirstEntry(entries, p, key) :: r == entries[..p] + entries[p + 1..]
  {
    if entries == [] then []
    else if entries[0].key == key then
      assert forall p | IsFirstEntry(entries, p, key) :: p == 0;
      entries[1..]
    else
      var rest := RemoveEntry(entries[1..], key);
      assert HasKey(entries, key) ==> HasKey(entries[1..], key) by {
        if HasKey(entries, key) {
          var p :| 0 <= p < |entries| && entries[p].key == key;
          assert entries[1..][p - 1].key == key;
        }
      }
      forall p | IsFirstEntry(entries, p, key) ensures [entries[0]] + rest == entries[..p] + entries[p + 1..] {
        assert IsFirstEntry(entries[1..], p - 1, key);
        assert entries[1..][..p - 1] + entries[1..][p..] == entries[1..p] + entries[p + 1..];
        assert entries[..p] == [entries[0]] + entries[1..p];
      }
      [entries[0]] + rest
  }
}
