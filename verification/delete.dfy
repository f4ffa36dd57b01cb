/**
 * The delete engine (`src/delete.rs`): the same index-driven walk as the
 * write engine, removing instead of writing.
 *
 * At a body, the current field collects the matching attribute keys and
 * block identifiers; at the last field every collected key removes the first
 * attribute with that key and every collected identifier removes all blocks
 * with it; before the last field, each collected key descends into the first
 * attribute's value and each collected identifier into the body of every
 * block with it, one field further on. Objects met on the way are handled the
 * same way, entries being matched by identifier key or string-literal key.
 */
module Deleter {
  import opened Wrappers
  import opened Hcl
  import opened FilterParser
  import opened Matching
  import opened Seqs

  /**
   * `should_remove`: the index has reached the last field. It is only
   * consulted while the field list is non-empty, so the unsigned
   * `len() - 1` never wraps.
   */
  predicate ShouldRemove(fs: seq<Field>, i: int) {
    i >= |fs| - 1
  }

  /** The error slot of the visitor; nothing ever fills it. */
  datatype DeleteError = DeleteError(message: string)

  // ---------------------------------------------------------------------------
  // Objects

  /** The keys collected by `visit_object_mut`: one per entry keyed by the name, in order. */
  function MatchingEntryKeys(entries: seq<ObjectEntry>, name: string): (keys: seq<ObjectKey>)
    ensures forall k | 0 <= k < |keys| :: KeyNames(keys[k], name)
    ensures |keys| <= |entries|
  {
    if entries == [] then []
    else (if KeyNames(entries[0].key, name) then [entries[0].key] else []) + MatchingEntryKeys(entries[1..], name)
  }

  /** `get_mut(key)` on an object, then a visit of that value one field further on. */
  function DescendEntry(fs: seq<Field>, j: nat, key: ObjectKey, entries: seq<ObjectEntry>): (r: seq<ObjectEntry>)
    requires j < |fs|
    ensures |r| == |entries|
    ensures forall p | 0 <= p < |entries| ::
              r[p] == if IsFirstEntry(entries, p, key)
                      then entries[p].(value := DeleteExpr(fs, j + 1, entries[p].value))
                      else entries[p]
    decreases |fs| - j, 1, |entries|
  {
    if entries == [] then []
    else if entries[0].key == key then [entries[0].(value := DeleteExpr(fs, j + 1, entries[0].value))] + entries[1..]
    else
      var rest := DescendEntry(fs, j, key, entries[1..]);
      assert forall p | 1 <= p < |entries| :: IsFirstEntry(entries, p, key) <==> IsFirstEntry(entries[1..], p - 1, key) by {
        forall p | 1 <= p < |entries| ensures IsFirstEntry(entries, p, key) <==> IsFirstEntry(entries[1..], p - 1, key) {
          if IsFirstEntry(entries[1..], p - 1, key) {
            forall q | 0 <= q < p ensures entries[q].key != key {
              if q > 0 { assert entries[q] == entries[1..][q - 1]; }
            }
          }
        }
      }
      [entries[0]] + rest
  }

  /** The second loop of `visit_object_mut`: remove at the last field, descend otherwise. */
  function DeleteEntries(fs: seq<Field>, j: nat, keys: seq<ObjectKey>, entries: seq<ObjectEntry>): seq<ObjectEntry>
    requires j < |fs|
    decreases |fs| - j, 2, |keys|
  {
    if keys == [] then entries
    else
      var next := if ShouldRemove(fs, j) then RemoveEntry(entries, keys[0]) else DescendEntry(fs, j, keys[0], entries);
      DeleteEntries(fs, j, keys[1..], next)
  }

  /** `visit_object_mut` at index `j`; past the last field nothing happens. */
  function DeleteObject(fs: seq<Field>, j: nat, entries: seq<ObjectEntry>): seq<ObjectEntry>
    decreases |fs| - j, 3
  {
    if j >= |fs| then entries
    else DeleteEntries(fs, j, MatchingEntryKeys(entries, fs[j].name), entries)
  }

  /**
   * The default `visit_expr_mut` at index `j`: an object is handed to
   * `visit_object_mut`; scalars hold nothing to visit.
   */
  function DeleteExpr(fs: seq<Field>, j: nat, e: Expression): (r: Expression)
    ensures r.Object? <==> e.Object?
    decreases |fs| - j, 4
  {
    match e
    case Scalar(_) => e
    case Object(entries) => Object(DeleteObject(fs, j, entries))
  }

  // ---------------------------------------------------------------------------
  // Bodies

  /** `get_attribute_mut(key)`, then a visit of its value one field further on. */
  function DescendAttr(fs: seq<Field>, i: nat, key: string, body: Body): (r: Body)
    requires i < |fs|
    ensures |r| == |body|
    ensures forall p | 0 <= p < |body| ::
              r[p] == if IsFirstAttr(body, p, key)
                      then AttributeItem(body[p].attr.(value := DeleteExpr(fs, i + 1, body[p].attr.value)))
                      else body[p]
    decreases |fs| - i, 1, |body|
  {
    if body == [] then []
    else if IsAttr(body[0], key) then
      [AttributeItem(body[0].attr.(value := DeleteExpr(fs, i + 1, body[0].attr.value)))] + body[1..]
    else
      var rest := DescendAttr(fs, i, key, body[1..]);
      assert forall p | 1 <= p < |body| :: IsFirstAttr(body, p, key) <==> IsFirstAttr(body[1..], p - 1, key) by {
        forall p | 1 <= p < |body| ensures IsFirstAttr(body, p, key) <==> IsFirstAttr(body[1..], p - 1, key) {
          if IsFirstAttr(body[1..], p - 1, key) {
            forall q | 0 <= q < p ensures !IsAttr(body[q], key) {
              if q > 0 { assert body[q] == body[1..][q - 1]; }
            }
          }
        }
      }
      [body[0]] + rest
  }

  /** The second loop of `visit_body_mut`: remove at the last field, descend otherwise. */
  function DeleteAttrs(fs: seq<Field>, i: nat, keys: seq<string>, body: Body): Body
    requires i < |fs|
    decreases |fs| - i, 2, |keys|
  {
    if keys == [] then body
    else
      var next := if ShouldRemove(fs, i) then RemoveAttribute(body, keys[0]) else DescendAttr(fs, i, keys[0], body);
      DeleteAttrs(fs, i, keys[1..], next)
  }

  /** `get_blocks_mut(ident)` with a visit of each block's body one field further on. */
  function DeleteBlocksNamed(fs: seq<Field>, i: nat, ident: string, body: Body): (r: Body)
    requires i < |fs|
    ensures |r| == |body|
    ensures forall p | 0 <= p < |body| ::
              r[p] == if IsBlock(body[p], ident)
                      then BlockItem(body[p].block.(body := DeleteBody(fs, i + 1, body[p].block.body)))
                      else body[p]
    decreases |fs| - i, 1, |body|
  {
    if body == [] then []
    else
      var head := if IsBlock(body[0], ident)
        then BlockItem(body[0].block.(body := DeleteBody(fs, i + 1, body[0].block.body)))
        else body[0];
      [head] + DeleteBlocksNamed(fs, i, ident, body[1..])
  }

  /** The third loop of `visit_body_mut`: `remove_blocks` at the last field, descend otherwise. */
  function DeleteBlocks(fs: seq<Field>, i: nat, idents: seq<string>, body: Body): Body
    requires i < |fs|
    decreases |fs| - i, 2, |idents|
  {
    if idents == [] then body
    else
      var next := if ShouldRemove(fs, i) then RemoveBlocks(body, idents[0]) else DeleteBlocksNamed(fs, i, idents[0], body);
      DeleteBlocks(fs, i, idents[1..], next)
  }

  /** `visit_body_mut` at index `i`; past the last field nothing happens. */
  function DeleteBody(fs: seq<Field>, i: nat, body: Body): Body
    decreases |fs| - i, 3
  {
    if i >= |fs| then body
    else
      var field := fs[i];
      var afterAttrs := DeleteAttrs(fs, i, MatchingAttrKeys(body, field.name), body);
      DeleteBlocks(fs, i, MatchingBlockIdents(body, field), afterAttrs)
  }

  /** `delete`: the visitor started at the first field on the root body; the error slot stays empty. */
  function Delete(fields: seq<Field>, body: Body): (r: Result<Body, DeleteError>)
    ensures r.Ok?
    ensures fields == [] ==> r.value == body
  {
    Ok(DeleteBody(fields, 0, body))
  }

  // ---------------------------------------------------------------------------
  // A reading of the visitor: a filter at the last field, positions before it

  /** A structure a visit at the last field removes: attributes of the name, and blocks of it when gated. */
  predicate Removed(field: Field, gate: bool, s: Structure) {
    IsAttr(s, field.name) || (gate && IsBlock(s, field.name))
  }

  /** The structures a removal keeps, in order. */
  function Survivors(body: Body, field: Field, gate: bool): (r: Body)
    ensures |r| <= |body|
    ensures forall s :: s in r <==> s in body && !Removed(field, gate, s)
  {
    if body == [] then []
    else
      assert forall s :: s in body <==> s == body[0] || s in body[1..];
      (if Removed(field, gate, body[0]) then [] else [body[0]]) + Survivors(body[1..], field, gate)
  }

  /** The entries a removal keeps, in order: those not keyed by the name. */
  function EntrySurvivors(entries: seq<ObjectEntry>, name: string): (r: seq<ObjectEntry>)
    ensures |r| <= |entries|
    ensures forall e :: e in r <==> e in entries && !KeyNames(e.key, name)
  {
    if entries == [] then []
    else
      assert forall e :: e in entries <==> e == entries[0] || e in entries[1..];
      (if KeyNames(entries[0].key, name) then [] else [entries[0]]) + EntrySurvivors(entries[1..], name)
  }

  /**
   * What a visit before the last field leaves at position `p`: the first
   * attribute with the name has its value pruned one field further on; when
   * some block passes the field's test, every block with the identifier has
   * its body pruned one field further on; anything else stays.
   */
  function PrunedItem(fs: seq<Field>, i: nat, body: Body, p: int): Structure
    requires i < |fs| && 0 <= p < |body|
    decreases |fs| - i, 0
  {
    var field := fs[i];
    if IsFirstAttr(body, p, field.name) then
      AttributeItem(body[p].attr.(value := PrunedExpr(fs, i + 1, body[p].attr.value)))
    else if IsBlock(body[p], field.name) && Gate(body, field) then
      BlockItem(body[p].block.(body := PrunedBody(fs, i + 1, body[p].block.body)))
    else body[p]
  }

  function PrunedItems(fs: seq<Field>, i: nat, body: Body): (items: Body)
    requires i < |fs|
    ensures |items| == |body|
    ensures forall p | 0 <= p < |body| :: items[p] == PrunedItem(fs, i, body, p)
    decreases |fs| - i, 1
  {
    seq(|body|, p requires 0 <= p < |body| => PrunedItem(fs, i, body, p))
  }

  /** The body a visit at index `i` leaves. */
  function PrunedBody(fs: seq<Field>, i: nat, body: Body): Body
    decreases |fs| - i, 2
  {
    if i >= |fs| then body
    else if ShouldRemove(fs, i) then Survivors(body, fs[i], Gate(body, fs[i]))
    else PrunedItems(fs, i, body)
  }

  /** What a visit before the last field leaves at entry `p`: the first entry of each matching key is pruned. */
  function PrunedEntry(fs: seq<Field>, j: nat, entries: seq<ObjectEntry>, p: int): ObjectEntry
    requires j < |fs| && 0 <= p < |entries|
    decreases |fs| - j, 0
  {
    if IsFirstKey(entries, p) && KeyNames(entries[p].key, fs[j].name)
    then entries[p].(value := PrunedExpr(fs, j + 1, entries[p].value))
    else entries[p]
  }

  function PrunedEntryItems(fs: seq<Field>, j: nat, entries: seq<ObjectEntry>): (r: seq<ObjectEntry>)
    requires j < |fs|
    ensures |r| == |entries|
    ensures forall p | 0 <= p < |entries| :: r[p] == PrunedEntry(fs, j, entries, p)
    decreases |fs| - j, 1
  {
    seq(|entries|, p requires 0 <= p < |entries| => PrunedEntry(fs, j, entries, p))
  }

  /** The entries a visit of an object at index `j` leaves. */
  function PrunedEntries(fs: seq<Field>, j: nat, entries: seq<ObjectEntry>): seq<ObjectEntry>
    decreases |fs| - j, 2
  {
    if j >= |fs| then entries
    else if ShouldRemove(fs, j) then EntrySurvivors(entries, fs[j].name)
    else PrunedEntryItems(fs, j, entries)
  }

  function PrunedExpr(fs: seq<Field>, j: nat, e: Expression): Expression
    decreases |fs| - j, 3
  {
    match e
    case Scalar(_) => e
    case Object(entries) => Object(PrunedEntries(fs, j, entries))
  }

  // ---------------------------------------------------------------------------
  // The reading is settled by one visit

  lemma {:induction false} EntrySurvivorsSettled(entries: seq<ObjectEntry>, name: string)
    ensures EntrySurvivors(EntrySurvivors(entries, name), name) == EntrySurvivors(entries, name)
  {
    if entries != [] {
      EntrySurvivorsSettled(entries[1..], name);
      var rest := EntrySurvivors(entries[1..], name);
      if KeyNames(entries[0].key, name) {
        assert EntrySurvivors(entries, name) == rest;
      } else {
        assert ([entries[0]] + rest)[1..] == rest;
      }
    }
  }

  lemma {:induction false} SurvivorsKeep(body: Body, field: Field, gate: bool)
    requires forall s | s in body :: !Removed(field, gate, s)
    ensures Survivors(body, field, gate) == body
  {
    if body != [] {
      assert body[0] in body;
      assert forall s | s in body[1..] :: s in body;
      SurvivorsKeep(body[1..], field, gate);
    }
  }

  /** After a removal at the last field, a second one removes nothing. */
  lemma SurvivorsSettled(body: Body, field: Field)
    ensures var r := Survivors(body, field, Gate(body, field));
      Survivors(r, field, Gate(r, field)) == r
  {
    var gate := Gate(body, field);
    var r := Survivors(body, field, gate);
    assert !Gate(r, field) by {
      forall p | 0 <= p < |r| && r[p].BlockItem? ensures !Selects(field, r[p].block) {
        assert r[p] in body;
        var q :| 0 <= q < |body| && body[q] == r[p];
      }
    }
    SurvivorsKeep(r, field, Gate(r, field));
  }

  lemma {:induction false} PrunedEntriesSettled(fs: seq<Field>, j: nat, entries: seq<ObjectEntry>)
    ensures PrunedEntries(fs, j, PrunedEntries(fs, j, entries)) == PrunedEntries(fs, j, entries)
    decreases |fs| - j, 0
  {
    if j < |fs| {
      if ShouldRemove(fs, j) {
        EntrySurvivorsSettled(entries, fs[j].name);
      } else {
        var r := PrunedEntryItems(fs, j, entries);
        var again := PrunedEntryItems(fs, j, r);
        assert forall p | 0 <= p < |entries| :: r[p].key == entries[p].key;
        assert forall p | 0 <= p < |entries| :: IsFirstKey(r, p) <==> IsFirstKey(entries, p);
        forall p | 0 <= p < |entries| ensures again[p] == r[p] {
          if IsFirstKey(entries, p) && KeyNames(entries[p].key, fs[j].name) {
            PrunedExprSettled(fs, j + 1, entries[p].value);
          }
        }
        assert again == r;
      }
    }
  }

  lemma {:induction false} PrunedExprSettled(fs: seq<Field>, j: nat, e: Expression)
    ensures PrunedExpr(fs, j, PrunedExpr(fs, j, e)) == PrunedExpr(fs, j, e)
    decreases |fs| - j, 1
  {
    if e.Object? {
      PrunedEntriesSettled(fs, j, e.entries);
    }
  }

  lemma {:induction false} PrunedBodySettled(fs: seq<Field>, i: nat, body: Body)
    ensures PrunedBody(fs, i, PrunedBody(fs, i, body)) == PrunedBody(fs, i, body)
    decreases |fs| - i, 0
  {
    if i < |fs| {
      var field := fs[i];
      if ShouldRemove(fs, i) {
        SurvivorsSettled(body, field);
      } else {
        var r := PrunedItems(fs, i, body);
        assert SameShapes(body, r) by {
          forall p | 0 <= p < |body| ensures SameShape(body[p], r[p]) {}
        }
        assert ShapePrefix(body, r);
        ShapePrefixKeepsFirstAttr(body, r, field.name);
        SameShapesSameGate(body, r, field);
        var again := PrunedItems(fs, i, r);
        forall p | 0 <= p < |body| ensures again[p] == r[p] {
          if IsFirstAttr(body, p, field.name) {
            PrunedExprSettled(fs, i + 1, body[p].attr.value);
          } else if IsBlock(body[p], field.name) && Gate(body, field) {
            PrunedBodySettled(fs, i + 1, body[p].block.body);
          }
        }
        assert again == r;
      }
    }
  }

  // ---------------------------------------------------------------------------
  // Removal loops at the last field

  lemma {:induction false} SurvivorsWithoutAttrs(body: Body, field: Field)
    requires AttrCount(body, field.name) == 0
    ensures Survivors(body, field, false) == body
  {
    if body != [] {
      SurvivorsWithoutAttrs(body[1..], field);
    }
  }

  lemma {:induction false} SurvivorsOfRemoveAttribute(body: Body, field: Field)
    ensures Survivors(RemoveAttribute(body, field.name), field, false) == Survivors(body, field, false)
  {
    if body != [] && !IsAttr(body[0], field.name) {
      var rest := RemoveAttribute(body[1..], field.name);
      SurvivorsOfRemoveAttribute(body[1..], field);
      assert ([body[0]] + rest)[1..] == rest;
    }
  }

  /** Removing the first attribute with the name once per such attribute removes them all. */
  lemma {:induction false} RemoveAttrsLoop(fs: seq<Field>, i: nat, keys: seq<string>, body: Body)
    requires i < |fs| && ShouldRemove(fs, i)
    requires forall k | 0 <= k < |keys| :: keys[k] == fs[i].name
    requires |keys| == AttrCount(body, fs[i].name)
    ensures DeleteAttrs(fs, i, keys, body) == Survivors(body, fs[i], false)
  {
    var field := fs[i];
    if keys == [] {
      SurvivorsWithoutAttrs(body, field);
    } else {
      AttrCountPositive(body, field.name);
      var next := RemoveAttribute(body, field.name);
      RemoveAttrsLoop(fs, i, keys[1..], next);
      SurvivorsOfRemoveAttribute(body, field);
    }
  }

  lemma {:induction false} RemoveBlocksSettled(body: Body, ident: string)
    ensures RemoveBlocks(RemoveBlocks(body, ident), ident) == RemoveBlocks(body, ident)
  {
    if body != [] {
      RemoveBlocksSettled(body[1..], ident);
      var rest := RemoveBlocks(body[1..], ident);
      if IsBlock(body[0], ident) {
        assert RemoveBlocks(body, ident) == rest;
      } else {
        assert ([body[0]] + rest)[1..] == rest;
      }
    }
  }

  /** `remove_blocks` once per collected identifier is `remove_blocks` once. */
  lemma {:induction false} RemoveBlocksLoop(fs: seq<Field>, i: nat, idents: seq<string>, body: Body)
    requires i < |fs| && ShouldRemove(fs, i)
    requires forall k | 0 <= k < |idents| :: idents[k] == fs[i].name
    ensures DeleteBlocks(fs, i, idents, body) == if idents == [] then body else RemoveBlocks(body, fs[i].name)
  {
    if idents != [] {
      var next := RemoveBlocks(body, fs[i].name);
      RemoveBlocksLoop(fs, i, idents[1..], next);
      if idents[1..] != [] {
        RemoveBlocksSettled(body, fs[i].name);
      }
    }
  }

  lemma {:induction false} RemoveBlocksOfSurvivors(body: Body, field: Field)
    ensures RemoveBlocks(Survivors(body, field, false), field.name) == Survivors(body, field, true)
  {
    if body != [] {
      RemoveBlocksOfSurvivors(body[1..], field);
      var rest := Survivors(body[1..], field, false);
      if !Removed(field, false, body[0]) {
        assert ([body[0]] + rest)[1..] == rest;
      } else {
        assert Survivors(body, field, false) == rest;
      }
    }
  }

  /** A visit at the last field is the removal filter. */
  lemma RemovalAtLastField(fs: seq<Field>, i: nat, body: Body)
    requires i < |fs| && ShouldRemove(fs, i)
    ensures DeleteBody(fs, i, body) == Survivors(body, fs[i], Gate(body, fs[i]))
  {
    var field := fs[i];
    var keys := MatchingAttrKeys(body, field.name);
    var idents := MatchingBlockIdents(body, field);
    RemoveAttrsLoop(fs, i, keys, body);
    RemoveBlocksLoop(fs, i, idents, Survivors(body, field, false));
    if idents != [] {
      RemoveBlocksOfSurvivors(body, field);
    }
  }

  // ---------------------------------------------------------------------------
  // Entry removal loops at the last field

  /** Number of entries with the key. */
  function KeyCount(entries: seq<ObjectEntry>, key: ObjectKey): nat {
    if entries == [] then 0 else (if entries[0].key == key then 1 else 0) + KeyCount(entries[1..], key)
  }

  lemma {:induction false} KeyCountPositive(entries: seq<ObjectEntry>, key: ObjectKey)
    ensures KeyCount(entries, key) > 0 <==> HasKey(entries, key)
  {
    if entries != [] {
      KeyCountPositive(entries[1..], key);
      if HasKey(entries, key) {
        var p :| 0 <= p < |entries| && entries[p].key == key;
        if p > 0 { assert entries[1..][p - 1].key == key; }
      }
      if HasKey(entries[1..], key) {
        var p :| 0 <= p < |entries[1..]| && entries[1..][p].key == key;
        assert entries[p + 1].key == key;
      }
    }
  }

  lemma {:induction false} MatchingEntryKeysCount(entries: seq<ObjectEntry>, name: string, key: ObjectKey)
    ensures Count(MatchingEntryKeys(entries, name), key) == if KeyNames(key, name) then KeyCount(entries, key) else 0
  {
    if entries != [] {
      MatchingEntryKeysCount(entries[1..], name, key);
      var head := if KeyNames(entries[0].key, name) then [entries[0].key] else [];
      CountAppend(head, MatchingEntryKeys(entries[1..], name), key);
    }
  }

  /** Removing an entry keyed by the name changes nothing about the entries a removal keeps. */
  lemma {:induction false} RemoveEntrySurvivors(entries: seq<ObjectEntry>, key: ObjectKey, name: string)
    requires KeyNames(key, name)
    ensures EntrySurvivors(RemoveEntry(entries, key), name) == EntrySurvivors(entries, name)
  {
    if entries != [] {
      if entries[0].key == key {
        assert RemoveEntry(entries, key) == entries[1..];
      } else {
        var rest := RemoveEntry(entries[1..], key);
        RemoveEntrySurvivors(entries[1..], key, name);
        assert RemoveEntry(entries, key) == [entries[0]] + rest;
        assert ([entries[0]] + rest)[1..] == rest;
      }
    }
  }

  /** Removing the first entry of a key lowers that key's count by one, when it is there. */
  lemma {:induction false} RemoveEntryKeyCount(entries: seq<ObjectEntry>, key: ObjectKey, other: ObjectKey)
    ensures KeyCount(RemoveEntry(entries, key), other)
         == KeyCount(entries, other) - (if other == key && HasKey(entries, key) then 1 else 0)
  {
    KeyCountPositive(entries, key);
    if entries != [] {
      if entries[0].key == key {
        assert RemoveEntry(entries, key) == entries[1..];
      } else {
        var rest := RemoveEntry(entries[1..], key);
        RemoveEntryKeyCount(entries[1..], key, other);
        KeyCountPositive(entries[1..], key);
        assert RemoveEntry(entries, key) == [entries[0]] + rest;
        assert ([entries[0]] + rest)[1..] == rest;
      }
    }
  }

  lemma {:induction false} EntrySurvivorsWithoutNamed(entries: seq<ObjectEntry>, name: string)
    requires KeyCount(entries, IdentKey(name)) == 0 && KeyCount(entries, StrKey(name)) == 0
    ensures EntrySurvivors(entries, name) == entries
  {
    if entries != [] {
      EntrySurvivorsWithoutNamed(entries[1..], name);
    }
  }

  /**
   * Removing the first entry of each collected key, once per collection,
   * removes every entry keyed by the name, even when a key repeats.
   */
  lemma {:induction false} RemoveEntriesLoop(fs: seq<Field>, j: nat, keys: seq<ObjectKey>, entries: seq<ObjectEntry>)
    requires j < |fs| && ShouldRemove(fs, j)
    requires forall k | 0 <= k < |keys| :: KeyNames(keys[k], fs[j].name)
    requires Count(keys, IdentKey(fs[j].name)) == KeyCount(entries, IdentKey(fs[j].name))
    requires Count(keys, StrKey(fs[j].name)) == KeyCount(entries, StrKey(fs[j].name))
    ensures DeleteEntries(fs, j, keys, entries) == EntrySurvivors(entries, fs[j].name)
  {
    var name := fs[j].name;
    if keys == [] {
      EntrySurvivorsWithoutNamed(entries, name);
    } else {
      var key := keys[0];
      assert key == IdentKey(name) || key == StrKey(name);
      KeyCountPositive(entries, key);
      var next := RemoveEntry(entries, key);
      RemoveEntrySurvivors(entries, key, name);
      RemoveEntryKeyCount(entries, key, IdentKey(name));
      RemoveEntryKeyCount(entries, key, StrKey(name));
      RemoveEntriesLoop(fs, j, keys[1..], next);
    }
  }

  /** A visit of an object at the last field removes every entry keyed by the name. */
  lemma RemovalOfEntries(fs: seq<Field>, j: nat, entries: seq<ObjectEntry>)
    requires j < |fs| && ShouldRemove(fs, j)
    ensures DeleteObject(fs, j, entries) == EntrySurvivors(entries, fs[j].name)
  {
    var name := fs[j].name;
    MatchingEntryKeysCount(entries, name, IdentKey(name));
    MatchingEntryKeysCount(entries, name, StrKey(name));
    RemoveEntriesLoop(fs, j, MatchingEntryKeys(entries, name), entries);
  }

  // ---------------------------------------------------------------------------
  // Descent loops before the last field

  lemma DescendAttrSettled(fs: seq<Field>, i: nat, key: string, body: Body)
    requires i < |fs|
    ensures DescendAttr(fs, i, key, DescendAttr(fs, i, key, body)) == DescendAttr(fs, i, key, body)
    decreases |fs| - i, 3
  {
    var r := DescendAttr(fs, i, key, body);
    assert ShapePrefix(body, r) by {
      forall p | 0 <= p < |body| ensures SameShape(body[p], r[p]) {}
    }
    ShapePrefixKeepsFirstAttr(body, r, key);
    var again := DescendAttr(fs, i, key, r);
    forall p | 0 <= p < |body| ensures again[p] == r[p] {
      if IsFirstAttr(body, p, key) {
        DeleteExprSettled(fs, i + 1, body[p].attr.value);
      }
    }
    assert again == r;
  }

  /** Descending into the first attribute with the name once per such attribute is descending once. */
  lemma {:induction false} DescendAttrsLoop(fs: seq<Field>, i: nat, keys: seq<string>, body: Body, key: string)
    requires i < |fs| && !ShouldRemove(fs, i)
    requires forall k | 0 <= k < |keys| :: keys[k] == key
    ensures DeleteAttrs(fs, i, keys, body) == if keys == [] then body else DescendAttr(fs, i, key, body)
    decreases |fs| - i, 4, |keys|
  {
    if keys != [] {
      var next := DescendAttr(fs, i, key, body);
      DescendAttrsLoop(fs, i, keys[1..], next, key);
      if keys[1..] != [] {
        DescendAttrSettled(fs, i, key, body);
      }
    }
  }

  lemma DeleteBlocksNamedSettled(fs: seq<Field>, i: nat, ident: string, body: Body)
    requires i < |fs|
    ensures DeleteBlocksNamed(fs, i, ident, DeleteBlocksNamed(fs, i, ident, body)) == DeleteBlocksNamed(fs, i, ident, body)
    decreases |fs| - i, 3
  {
    var r := DeleteBlocksNamed(fs, i, ident, body);
    var again := DeleteBlocksNamed(fs, i, ident, r);
    forall p | 0 <= p < |body| ensures again[p] == r[p] {
      if IsBlock(body[p], ident) {
        DeleteBodySettled(fs, i + 1, body[p].block.body);
      }
    }
    assert again == r;
  }

  /** Descending into the blocks of an identifier once per collected hit is descending once. */
  lemma {:induction false} DescendBlocksLoop(fs: seq<Field>, i: nat, idents: seq<string>, body: Body, ident: string)
    requires i < |fs| && !ShouldRemove(fs, i)
    requires forall k | 0 <= k < |idents| :: idents[k] == ident
    ensures DeleteBlocks(fs, i, idents, body) == if idents == [] then body else DeleteBlocksNamed(fs, i, ident, body)
    decreases |fs| - i, 4, |idents|
  {
    if idents != [] {
      var next := DeleteBlocksNamed(fs, i, ident, body);
      DescendBlocksLoop(fs, i, idents[1..], next, ident);
      if idents[1..] != [] {
        DeleteBlocksNamedSettled(fs, i, ident, body);
      }
    }
  }

  /** The entries after descending into the first entry of every key in `done`. */
  function PartialEntries(fs: seq<Field>, j: nat, orig: seq<ObjectEntry>, done: seq<ObjectKey>): (r: seq<ObjectEntry>)
    requires j < |fs|
    ensures |r| == |orig|
    ensures forall p | 0 <= p < |orig| ::
              r[p] == if IsFirstKey(orig, p) && orig[p].key in done
                      then orig[p].(value := DeleteExpr(fs, j + 1, orig[p].value))
                      else orig[p]
  {
    seq(|orig|, p requires 0 <= p < |orig| =>
      if IsFirstKey(orig, p) && orig[p].key in done then orig[p].(value := DeleteExpr(fs, j + 1, orig[p].value)) else orig[p])
  }

  lemma DescendEntryStep(fs: seq<Field>, j: nat, orig: seq<ObjectEntry>, done: seq<ObjectKey>, key: ObjectKey)
    requires j < |fs|
    ensures DescendEntry(fs, j, key, PartialEntries(fs, j, orig, done)) == PartialEntries(fs, j, orig, done + [key])
    decreases |fs| - j, 3
  {
    var es := PartialEntries(fs, j, orig, done);
    var r := DescendEntry(fs, j, key, es);
    var target := PartialEntries(fs, j, orig, done + [key]);
    assert forall p | 0 <= p < |orig| :: es[p].key == orig[p].key;
    assert forall p | 0 <= p < |orig| :: IsFirstEntry(es, p, key) <==> IsFirstKey(orig, p) && orig[p].key == key;
    forall p | 0 <= p < |orig| ensures r[p] == target[p] {
      if IsFirstKey(orig, p) && orig[p].key == key {
        DeleteExprSettled(fs, j + 1, orig[p].value);
      }
    }
    assert r == target;
  }

  lemma {:induction false} DescendEntriesLoop(fs: seq<Field>, j: nat, keys: seq<ObjectKey>, orig: seq<ObjectEntry>, done: seq<ObjectKey>)
    requires j < |fs| && !ShouldRemove(fs, j)
    ensures DeleteEntries(fs, j, keys, PartialEntries(fs, j, orig, done)) == PartialEntries(fs, j, orig, done + keys)
    decreases |fs| - j, 4, |keys|
  {
    if keys == [] {
      assert done + keys == done;
    } else {
      DescendEntryStep(fs, j, orig, done, keys[0]);
      DescendEntriesLoop(fs, j, keys[1..], orig, done + [keys[0]]);
      assert done + [keys[0]] + keys[1..] == done + keys;
    }
  }

  lemma {:induction false} MatchingEntryKeysHas(entries: seq<ObjectEntry>, name: string, p: int)
    requires 0 <= p < |entries| && KeyNames(entries[p].key, name)
    ensures entries[p].key in MatchingEntryKeys(entries, name)
  {
    if p > 0 {
      MatchingEntryKeysHas(entries[1..], name, p - 1);
    }
  }

  // ---------------------------------------------------------------------------
  // The visitor is the reading

  lemma DeleteObjectIsPruned(fs: seq<Field>, j: nat, entries: seq<ObjectEntry>)
    ensures DeleteObject(fs, j, entries) == PrunedEntries(fs, j, entries)
    decreases |fs| - j, 5
  {
    if j < |fs| {
      if ShouldRemove(fs, j) {
        RemovalOfEntries(fs, j, entries);
      } else {
        var name := fs[j].name;
        var keys := MatchingEntryKeys(entries, name);
        assert PartialEntries(fs, j, entries, []) == entries;
        DescendEntriesLoop(fs, j, keys, entries, []);
        assert [] + keys == keys;
        var r := PartialEntries(fs, j, entries, keys);
        var target := PrunedEntryItems(fs, j, entries);
        forall p | 0 <= p < |entries| ensures r[p] == target[p] {
          if IsFirstKey(entries, p) && KeyNames(entries[p].key, name) {
            MatchingEntryKeysHas(entries, name, p);
            DeleteExprIsPruned(fs, j + 1, entries[p].value);
          }
        }
        assert r == target;
      }
    }
  }

  lemma DeleteExprIsPruned(fs: seq<Field>, j: nat, e: Expression)
    ensures DeleteExpr(fs, j, e) == PrunedExpr(fs, j, e)
    decreases |fs| - j, 6
  {
    if e.Object? {
      DeleteObjectIsPruned(fs, j, e.entries);
    }
  }

  /** Visiting an expression twice at the same index is visiting it once. */
  lemma DeleteExprSettled(fs: seq<Field>, j: nat, e: Expression)
    ensures DeleteExpr(fs, j, DeleteExpr(fs, j, e)) == DeleteExpr(fs, j, e)
    decreases |fs| - j, 7
  {
    DeleteExprIsPruned(fs, j, e);
    DeleteExprIsPruned(fs, j, DeleteExpr(fs, j, e));
    PrunedExprSettled(fs, j, e);
  }

  /** One position after the attribute and block loops of a visit before the last field. */
  lemma DescendedItem(fs: seq<Field>, i: nat, body: Body, p: int)
    requires i < |fs| && !ShouldRemove(fs, i) && 0 <= p < |body|
    ensures var field := fs[i];
      var r := DeleteBody(fs, i, body);
      |r| == |body| &&
      r[p] == if IsFirstAttr(body, p, field.name)
              then AttributeItem(body[p].attr.(value := DeleteExpr(fs, i + 1, body[p].attr.value)))
              else if IsBlock(body[p], field.name) && Gate(body, field)
              then BlockItem(body[p].block.(body := DeleteBody(fs, i + 1, body[p].block.body)))
              else body[p]
    decreases |fs| - i, 5
  {
    var field := fs[i];
    var keys := MatchingAttrKeys(body, field.name);
    var idents := MatchingBlockIdents(body, field);
    DescendAttrsLoop(fs, i, keys, body, field.name);
    var after := DeleteAttrs(fs, i, keys, body);
    DescendBlocksLoop(fs, i, idents, after, field.name);
    assert |after| == |body|;
    assert after[p] == if IsFirstAttr(body, p, field.name)
      then AttributeItem(body[p].attr.(value := DeleteExpr(fs, i + 1, body[p].attr.value))) else body[p];
  }

  lemma DeleteBodyIsPruned(fs: seq<Field>, i: nat, body: Body)
    ensures DeleteBody(fs, i, body) == PrunedBody(fs, i, body)
    decreases |fs| - i, 6
  {
    if i < |fs| {
      if ShouldRemove(fs, i) {
        RemovalAtLastField(fs, i, body);
      } else {
        var field := fs[i];
        var r := DeleteBody(fs, i, body);
        var target := PrunedItems(fs, i, body);
        assert |r| == |body| by {
          var keys := MatchingAttrKeys(body, field.name);
          DescendAttrsLoop(fs, i, keys, body, field.name);
          DescendBlocksLoop(fs, i, MatchingBlockIdents(body, field), DeleteAttrs(fs, i, keys, body), field.name);
        }
        forall p | 0 <= p < |body| ensures r[p] == target[p] {
          DescendedItem(fs, i, body, p);
          if IsFirstAttr(body, p, field.name) {
            DeleteExprIsPruned(fs, i + 1, body[p].attr.value);
          } else if IsBlock(body[p], field.name) && Gate(body, field) {
            DeleteBodyIsPruned(fs, i + 1, body[p].block.body);
          }
        }
        assert r == target;
      }
    }
  }

  /** Visiting a body twice at the same index is visiting it once. */
  lemma DeleteBodySettled(fs: seq<Field>, i: nat, body: Body)
    ensures DeleteBody(fs, i, DeleteBody(fs, i, body)) == DeleteBody(fs, i, body)
    decreases |fs| - i, 7
  {
    DeleteBodyIsPruned(fs, i, body);
    DeleteBodyIsPruned(fs, i, DeleteBody(fs, i, body));
    PrunedBodySettled(fs, i, body);
  }

  // ---------------------------------------------------------------------------
  // Properties

  lemma {:induction false} SurvivorsSubsequence(body: Body, field: Field, gate: bool)
    ensures ShapeSubsequence(Survivors(body, field, gate), body)
  {
    if body != [] {
      SurvivorsSubsequence(body[1..], field, gate);
      var rest := Survivors(body[1..], field, gate);
      if !Removed(field, gate, body[0]) {
        assert ([body[0]] + rest)[1..] == rest;
      } else {
        assert Survivors(body, field, gate) == rest;
      }
    }
  }

  /**
   * A visit at the last field is the removal filter: what survives is
   * `Survivors`, gated by whether some block passes the field's test.
   */
  lemma DeleteAtLastField(fs: seq<Field>, body: Body)
    requires |fs| > 0
    ensures DeleteBody(fs, |fs| - 1, body) == Survivors(body, fs[|fs| - 1], Gate(body, fs[|fs| - 1]))
  {
    var i := |fs| - 1;
    RemovalAtLastField(fs, i, body);
  }

  /**
   * The removal filter drops every attribute with the name and, when gated,
   * every block with the identifier (labels and body included); everything
   * else survives, in order.
   */
  lemma SurvivorsRemove(body: Body, field: Field, gate: bool)
    ensures !HasAttribute(Survivors(body, field, gate), field.name)
    ensures gate ==> forall s | s in Survivors(body, field, gate) :: !IsBlock(s, field.name)
    ensures forall s | s in body && !IsAttr(s, field.name) && !(gate && IsBlock(s, field.name)) ::
              s in Survivors(body, field, gate)
    ensures ShapeSubsequence(Survivors(body, field, gate), body)
  {
    var r := Survivors(body, field, gate);
    forall p | 0 <= p < |r| ensures !IsAttr(r[p], field.name) {
      assert r[p] in r;
    }
    SurvivorsSubsequence(body, field, gate);
  }

  /**
   * A visit before the last field removes nothing: the first attribute with
   * the name has its value visited one field further on, and when some block
   * passes the field's test every block with the identifier has its body
   * visited one field further on; the block itself survives.
   */
  lemma DeleteBeforeLastField(fs: seq<Field>, i: nat, body: Body)
    requires i + 1 < |fs|
    ensures var field := fs[i];
      var r := DeleteBody(fs, i, body);
      |r| == |body| &&
      forall p | 0 <= p < |body| ::
        r[p] == if IsFirstAttr(body, p, field.name)
                then AttributeItem(body[p].attr.(value := DeleteExpr(fs, i + 1, body[p].attr.value)))
                else if IsBlock(body[p], field.name) && Gate(body, field)
                then BlockItem(body[p].block.(body := DeleteBody(fs, i + 1, body[p].block.body)))
                else body[p]
  {
    var field := fs[i];
    var keys := MatchingAttrKeys(body, field.name);
    DescendAttrsLoop(fs, i, keys, body, field.name);
    DescendBlocksLoop(fs, i, MatchingBlockIdents(body, field), DeleteAttrs(fs, i, keys, body), field.name);
    forall p | 0 <= p < |body| {
      DescendedItem(fs, i, body, p);
    }
  }

  /** A visit of an object at the last field removes every entry keyed by the name, leaving the rest in order. */
  lemma DeleteEntriesAtLastField(fs: seq<Field>, entries: seq<ObjectEntry>)
    requires |fs| > 0
    ensures DeleteObject(fs, |fs| - 1, entries) == EntrySurvivors(entries, fs[|fs| - 1].name)
  {
    var j := |fs| - 1;
    RemovalOfEntries(fs, j, entries);
  }

  /**
   * A visit of an object before the last field removes nothing: each entry
   * keyed by the name (identifier or string literal) has its value visited
   * one field further on.
   */
  lemma DeleteEntriesBeforeLastField(fs: seq<Field>, j: nat, entries: seq<ObjectEntry>)
    requires j + 1 < |fs|
    ensures var r := DeleteObject(fs, j, entries);
      |r| == |entries| &&
      forall p | 0 <= p < |entries| ::
        r[p] == if IsFirstKey(entries, p) && KeyNames(entries[p].key, fs[j].name)
                then entries[p].(value := DeleteExpr(fs, j + 1, entries[p].value))
                else entries[p]
  {
    DeleteObjectIsPruned(fs, j, entries);
    forall p | 0 <= p < |entries| && IsFirstKey(entries, p) && KeyNames(entries[p].key, fs[j].name) {
      DeleteExprIsPruned(fs, j + 1, entries[p].value);
    }
  }

  /** When nothing at a body matches the current field, the body is left as it is. */
  lemma NothingMatchesNothingChanges(fs: seq<Field>, i: nat, body: Body)
    requires i < |fs|
    requires !HasAttribute(body, fs[i].name) && !Gate(body, fs[i])
    ensures DeleteBody(fs, i, body) == body
  {
    var field := fs[i];
    DeleteBodyIsPruned(fs, i, body);
    if ShouldRemove(fs, i) {
      forall s | s in body ensures !Removed(field, false, s) {
        var p :| 0 <= p < |body| && body[p] == s;
      }
      SurvivorsKeep(body, field, false);
    } else {
      var r := PrunedItems(fs, i, body);
      forall p | 0 <= p < |body| ensures r[p] == body[p] {
        assert !IsFirstAttr(body, p, field.name);
      }
      assert r == body;
    }
  }

  lemma DeleteKeepsShapes(fs: seq<Field>, i: nat, body: Body)
    requires i + 1 < |fs|
    ensures SameShapes(body, DeleteBody(fs, i, body))
  {
    var r := DeleteBody(fs, i, body);
    DeleteBeforeLastField(fs, i, body);
    forall p | 0 <= p < |body| ensures SameShape(body[p], r[p]) {}
  }

  /** `delete` keeps the surviving structures in order and never adds one. */
  lemma DeleteOnlyRemoves(fields: seq<Field>, body: Body)
    ensures ShapeSubsequence(Delete(fields, body).value, body)
  {
    if |fields| == 0 {
      SameShapesSubsequence(body, body);
    } else if |fields| == 1 {
      DeleteAtLastField(fields, body);
      SurvivorsSubsequence(body, fields[0], Gate(body, fields[0]));
    } else {
      DeleteKeepsShapes(fields, 0, body);
      SameShapesSubsequence(body, DeleteBody(fields, 0, body));
    }
  }

  /** Deleting twice is deleting once. */
  lemma DeleteIdempotent(fields: seq<Field>, body: Body)
    ensures Delete(fields, Delete(fields, body).value) == Delete(fields, body)
  {
    DeleteBodySettled(fields, 0, body);
  }
}
