/**
 * The delete engine on the documents of `tests/delete-tests.rs`. Expression
 * sources are kept as opaque scalars; decor is left arbitrary.
 */
module DeleteExamples {
  import opened Wrappers
  import opened Hcl
  import opened FilterParser
  import opened Matching
  import opened Deleter

  /** `.version` on `version = "test"` leaves an empty body. */
  lemma DeleteAttr(d: Decor)
    ensures Delete([NewField("version")], [Attr("version", Scalar("\"test\""), d)]) == Ok([])
  {
    var fs := [NewField("version")];
    var body := [Attr("version", Scalar("\"test\""), d)];
    DeleteAtLastField(fs, body);
    assert Survivors(body[1..], fs[0], Gate(body, fs[0])) == [];
  }

  /** `.module{"cool-module"}` removes the labeled block whole. */
  lemma DeleteLabeledBlock(d: Decor)
    ensures Delete([LabeledField("module", ["cool-module"])],
                   [BlockItem(Block("module", ["cool-module"], [Attr("version", Scalar("\"1.0\""), d)]))]) == Ok([])
  {
    var fs := [LabeledField("module", ["cool-module"])];
    var body := [BlockItem(Block("module", ["cool-module"], [Attr("version", Scalar("\"1.0\""), d)]))];
    assert SharesLabel(fs[0].labels, body[0].block.labels) by {
      assert fs[0].labels[0] == body[0].block.labels[0];
    }
    assert Gate(body, fs[0]) by { assert body[0].BlockItem? && Selects(fs[0], body[0].block); }
    DeleteAtLastField(fs, body);
    assert Survivors(body[1..], fs[0], true) == [];
  }

  /** `.module{"cool-module"}.version` empties the block and keeps it. */
  lemma DeleteLabeledBlockAttr(d: Decor)
    ensures Delete([LabeledField("module", ["cool-module"]), NewField("version")],
                   [BlockItem(Block("module", ["cool-module"], [Attr("version", Scalar("\"1.0\""), d)]))])
         == Ok([BlockItem(Block("module", ["cool-module"], []))])
  {
    var fs := [LabeledField("module", ["cool-module"]), NewField("version")];
    var inner := [Attr("version", Scalar("\"1.0\""), d)];
    var body := [BlockItem(Block("module", ["cool-module"], inner))];
    assert SharesLabel(fs[0].labels, body[0].block.labels) by {
      assert fs[0].labels[0] == body[0].block.labels[0];
    }
    assert Gate(body, fs[0]) by { assert body[0].BlockItem? && Selects(fs[0], body[0].block); }
    DeleteBeforeLastField(fs, 0, body);
    DeleteAtLastField(fs, inner);
    assert Survivors(inner[1..], fs[1], Gate(inner, fs[1])) == [];
    var r := DeleteBody(fs, 0, body);
    assert r[0] == BlockItem(Block("module", ["cool-module"], []));
    assert r == [BlockItem(Block("module", ["cool-module"], []))];
  }

  /** `.local` removes the block whole. */
  lemma DeleteBlock(d: Decor)
    ensures Delete([NewField("local")], [BlockItem(Block("local", [], [Attr("var", Scalar("5"), d)]))]) == Ok([])
  {
    var fs := [NewField("local")];
    var body := [BlockItem(Block("local", [], [Attr("var", Scalar("5"), d)]))];
    assert Gate(body, fs[0]) by { assert body[0].BlockItem? && Selects(fs[0], body[0].block); }
    DeleteAtLastField(fs, body);
    assert Survivors(body[1..], fs[0], true) == [];
  }

  /** `.local.var` empties the block and keeps it. */
  lemma DeleteBlockAttr(d: Decor)
    ensures Delete([NewField("local"), NewField("var")], [BlockItem(Block("local", [], [Attr("var", Scalar("5"), d)]))])
         == Ok([BlockItem(Block("local", [], []))])
  {
    var fs := [NewField("local"), NewField("var")];
    var inner := [Attr("var", Scalar("5"), d)];
    var body := [BlockItem(Block("local", [], inner))];
    assert Gate(body, fs[0]) by { assert body[0].BlockItem? && Selects(fs[0], body[0].block); }
    DeleteBeforeLastField(fs, 0, body);
    DeleteAtLastField(fs, inner);
    assert Survivors(inner[1..], fs[1], Gate(inner, fs[1])) == [];
    var r := DeleteBody(fs, 0, body);
    assert r[0] == BlockItem(Block("local", [], []));
    assert r == [BlockItem(Block("local", [], []))];
  }

  // ---------------------------------------------------------------------------
  // One-item documents, one field at a time

  /** Before the last field, a lone attribute with the name has its value visited. */
  lemma LoneAttrDescends(fs: seq<Field>, i: nat, a: Attribute)
    requires i + 1 < |fs| && a.key == fs[i].name
    ensures DeleteBody(fs, i, [AttributeItem(a)]) == [AttributeItem(a.(value := DeleteExpr(fs, i + 1, a.value)))]
  {
    var body := [AttributeItem(a)];
    DeleteBeforeLastField(fs, i, body);
    assert IsFirstAttr(body, 0, a.key);
  }

  /** Before the last field, a lone block passing the field's test has its body visited. */
  lemma LoneBlockDescends(fs: seq<Field>, i: nat, b: Block)
    requires i + 1 < |fs| && Selects(fs[i], b)
    ensures DeleteBody(fs, i, [BlockItem(b)]) == [BlockItem(b.(body := DeleteBody(fs, i + 1, b.body)))]
  {
    var body := [BlockItem(b)];
    assert Gate(body, fs[i]) by { assert body[0].BlockItem? && Selects(fs[i], body[0].block); }
    DeleteBeforeLastField(fs, i, body);
  }

  /** Before the last field, a lone entry keyed by the name has its value visited. */
  lemma LoneEntryDescends(fs: seq<Field>, j: nat, e: ObjectEntry)
    requires j + 1 < |fs| && KeyNames(e.key, fs[j].name)
    ensures DeleteObject(fs, j, [e]) == [e.(value := DeleteExpr(fs, j + 1, e.value))]
  {
    DeleteEntriesBeforeLastField(fs, j, [e]);
    assert IsFirstKey([e], 0);
  }

  /** `.local.obj.val` removes the entry and leaves an empty object in place. */
  lemma DeleteFromObject(d: Decor)
    ensures Delete([NewField("local"), NewField("obj"), NewField("val")],
                   [BlockItem(Block("local", [], [Attr("obj", Object([ObjectEntry(IdentKey("val"), Scalar("5"))]), d)]))])
         == Ok([BlockItem(Block("local", [], [Attr("obj", Object([]), d)]))])
  {
    var fs := [NewField("local"), NewField("obj"), NewField("val")];
    var entry := ObjectEntry(IdentKey("val"), Scalar("5"));
    var a := Attribute("obj", Object([entry]), d);
    DeleteEntriesAtLastField(fs, [entry]);
    assert [entry][1..] == [];
    assert DeleteExpr(fs, 2, a.value) == Object([]);
    LoneAttrDescends(fs, 1, a);
    LoneBlockDescends(fs, 0, Block("local", [], [AttributeItem(a)]));
  }

  /** `.local.obj.obj2.val` descends through two objects and empties the inner one. */
  lemma DeleteFromNestedObject(d: Decor)
    ensures Delete([NewField("local"), NewField("obj"), NewField("obj2"), NewField("val")],
                   [BlockItem(Block("local", [], [Attr("obj", Object([ObjectEntry(IdentKey("obj2"),
                      Object([ObjectEntry(IdentKey("val"), Scalar("5"))]))]), d)]))])
         == Ok([BlockItem(Block("local", [], [Attr("obj", Object([ObjectEntry(IdentKey("obj2"), Object([]))]), d)]))])
  {
    var fs := [NewField("local"), NewField("obj"), NewField("obj2"), NewField("val")];
    var entry := ObjectEntry(IdentKey("val"), Scalar("5"));
    var outer := ObjectEntry(IdentKey("obj2"), Object([entry]));
    var a := Attribute("obj", Object([outer]), d);
    DeleteEntriesAtLastField(fs, [entry]);
    assert [entry][1..] == [];
    assert DeleteExpr(fs, 3, outer.value) == Object([]);
    LoneEntryDescends(fs, 2, outer);
    assert DeleteExpr(fs, 2, a.value) == Object([ObjectEntry(IdentKey("obj2"), Object([]))]);
    LoneAttrDescends(fs, 1, a);
    LoneBlockDescends(fs, 0, Block("local", [], [AttributeItem(a)]));
  }

  /** An entry keyed by the string literal of the name is removed as well. */
  lemma DeleteStringKeyedEntry(v: Expression)
    ensures DeleteObject([NewField("val")], 0, [ObjectEntry(StrKey("val"), v), ObjectEntry(IdentKey("other"), v)])
         == [ObjectEntry(IdentKey("other"), v)]
  {
    var fs := [NewField("val")];
    var entries := [ObjectEntry(StrKey("val"), v), ObjectEntry(IdentKey("other"), v)];
    DeleteEntriesAtLastField(fs, entries);
    assert entries[1..][1..] == [];
    assert EntrySurvivors(entries[1..], "val") == [ObjectEntry(IdentKey("other"), v)];
  }
}
