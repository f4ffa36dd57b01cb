/**
 * The write engine on the documents of `tests/write-tests.rs` and on the
 * inputs that exhibit its traversal quirks. Expression sources are kept as
 * opaque scalars; decor is left arbitrary.
 */
module WriteExamples {
  import opened Wrappers
  import opened Hcl
  import opened FilterParser
  import opened Matching
  import opened Editor

  /** `.version` on `version = "test"` replaces the value in place. */
  lemma WriteAttr(d: Decor)
    ensures Write([NewField("version")], [Attr("version", Scalar("\"test\""), d)], Scalar("\"new_value\""))
         == Returns([Attr("version", Scalar("\"new_value\""), d)])
  {
    var fs := [NewField("version")];
    var v := Scalar("\"new_value\"");
    var body := [Attr("version", Scalar("\"test\""), d)];
    assert IsIdentifier("version");
    assert IsFirstAttr(body, 0, "version");
    WriteAtLastField(fs, 0, v, body);
    var r := WriteBody(fs, 0, v, body);
    assert |r| == 1 && r[0] == Attr("version", v, d);
    assert r == [Attr("version", v, d)];
  }

  /** `.options.enabled` on `options { enabled = false }` writes inside the block. */
  lemma WriteBlockAttr(d: Decor)
    ensures Write([NewField("options"), NewField("enabled")],
                  [BlockItem(Block("options", [], [Attr("enabled", Scalar("false"), d)]))], Scalar("true"))
         == Returns([BlockItem(Block("options", [], [Attr("enabled", Scalar("true"), d)]))])
  {
    var fs := [NewField("options"), NewField("enabled")];
    var v := Scalar("true");
    var inner := [Attr("enabled", Scalar("false"), d)];
    var body := [BlockItem(Block("options", [], inner))];
    assert IsIdentifier("enabled");
    assert Gate(body, fs[0]) by { assert body[0].BlockItem? && Selects(fs[0], body[0].block); }
    WriteBeforeLastField(fs, 0, v, body);
    assert IsFirstAttr(inner, 0, "enabled");
    WriteAtLastField(fs, 1, v, inner);
    var written := WriteBody(fs, 1, v, inner);
    assert |written| == 1 && written[0] == Attr("enabled", v, d);
    assert written == [Attr("enabled", v, d)];
    var r := WriteBody(fs, 0, v, body);
    assert r[0] == BlockItem(Block("options", [], written));
    assert r == [BlockItem(Block("options", [], written))];
  }

  /** `.module{"cool-module"}.version` writes inside the labeled block. */
  lemma WriteLabeledBlockAttr(d: Decor)
    ensures Write([LabeledField("module", ["cool-module"]), NewField("version")],
                  [BlockItem(Block("module", ["cool-module"], [Attr("version", Scalar("\"1.0\""), d)]))], Scalar("\"2.0\""))
         == Returns([BlockItem(Block("module", ["cool-module"], [Attr("version", Scalar("\"2.0\""), d)]))])
  {
    var fs := [LabeledField("module", ["cool-module"]), NewField("version")];
    var v := Scalar("\"2.0\"");
    var inner := [Attr("version", Scalar("\"1.0\""), d)];
    var body := [BlockItem(Block("module", ["cool-module"], inner))];
    assert IsIdentifier("version");
    assert SharesLabel(fs[0].labels, body[0].block.labels) by {
      assert fs[0].labels[0] == body[0].block.labels[0];
    }
    assert Gate(body, fs[0]) by { assert body[0].BlockItem? && Selects(fs[0], body[0].block); }
    WriteBeforeLastField(fs, 0, v, body);
    assert IsFirstAttr(inner, 0, "version");
    WriteAtLastField(fs, 1, v, inner);
    var written := WriteBody(fs, 1, v, inner);
    assert |written| == 1 && written[0] == Attr("version", v, d);
    assert written == [Attr("version", v, d)];
    var r := WriteBody(fs, 0, v, body);
    assert r[0] == BlockItem(Block("module", ["cool-module"], written));
    assert r == [BlockItem(Block("module", ["cool-module"], written))];
  }

  /** `.options.new_attr` on `options { attr = "value" }` appends with the decor of `attr`. */
  lemma WriteInsert(d: Decor)
    ensures Write([NewField("options"), NewField("new_attr")],
                  [BlockItem(Block("options", [], [Attr("attr", Scalar("\"value\""), d)]))], Scalar("\"new_value\""))
         == Returns([BlockItem(Block("options", [], [Attr("attr", Scalar("\"value\""), d), Attr("new_attr", Scalar("\"new_value\""), d)]))])
  {
    var fs := [NewField("options"), NewField("new_attr")];
    var v := Scalar("\"new_value\"");
    var inner := [Attr("attr", Scalar("\"value\""), d)];
    var body := [BlockItem(Block("options", [], inner))];
    assert IsIdentifier("new_attr");
    assert Gate(body, fs[0]) by { assert body[0].BlockItem? && Selects(fs[0], body[0].block); }
    WriteBeforeLastField(fs, 0, v, body);
    var written := WriteBody(fs, 1, v, inner);
    InsertAfterAttr(fs, v, d);
    var r := WriteBody(fs, 0, v, body);
    assert r[0] == BlockItem(Block("options", [], written));
    assert r == [BlockItem(Block("options", [], written))];
  }

  lemma InsertAfterAttr(fs: seq<Field>, v: Expression, d: Decor)
    requires fs == [NewField("options"), NewField("new_attr")]
    ensures WriteBody(fs, 1, v, [Attr("attr", Scalar("\"value\""), d)])
         == [Attr("attr", Scalar("\"value\""), d), Attr("new_attr", v, d)]
  {
    var inner := [Attr("attr", Scalar("\"value\""), d)];
    assert !HasAttribute(inner, "new_attr");
    LastAttrDecorIsLast(inner);
    assert Attributes(inner) == [Attribute("attr", Scalar("\"value\""), d)] by {
      assert inner[1..] == [];
    }
    WriteAtLastField(fs, 1, v, inner);
  }

  /**
   * With exactly one field after an attribute's name, the attribute's whole
   * value is replaced, even when it is an object holding the second name.
   */
  lemma ObjectValueReplacedWhole(a: string, b: string, entries: seq<ObjectEntry>, d: Decor, v: Expression)
    ensures Write([NewField(a), NewField(b)], [Attr(a, Object(entries), d)], v) == Returns([Attr(a, v, d)])
  {
    var fs := [NewField(a), NewField(b)];
    var body := [Attr(a, Object(entries), d)];
    NoDescentWithoutBlocks(fs, body);
    assert IsFirstAttr(body, 0, a);
    WriteBeforeLastField(fs, 0, v, body);
    var r := WriteBody(fs, 0, v, body);
    assert r[0] == Attr(a, v, d);
    assert r == [Attr(a, v, d)];
  }

  /** With two or more fields after an attribute's name, nothing is written into its value. */
  lemma DeeperFieldsLeaveValue(a: string, b: string, c: string, entries: seq<ObjectEntry>, d: Decor, v: Expression)
    ensures Write([NewField(a), NewField(b), NewField(c)], [Attr(a, Object(entries), d)], v)
         == Returns([Attr(a, Object(entries), d)])
  {
    var fs := [NewField(a), NewField(b), NewField(c)];
    var body := [Attr(a, Object(entries), d)];
    NoDescentWithoutBlocks(fs, body);
    WriteBeforeLastField(fs, 0, v, body);
    var r := WriteBody(fs, 0, v, body);
    assert r[0] == body[0];
    assert r == body;
  }

  /**
   * A labeled field only gates the descent: `.module{"a"}.version` writes into
   * `module "b"` too, because `module "a"` passes the test.
   */
  lemma LabelOnlyGates(v: Expression)
    ensures Write([LabeledField("module", ["a"]), NewField("version")],
                  [BlockItem(Block("module", ["a"], [])), BlockItem(Block("module", ["b"], []))], v)
         == Returns([BlockItem(Block("module", ["a"], [Attr("version", v, DefaultDecor)])),
                     BlockItem(Block("module", ["b"], [Attr("version", v, DefaultDecor)]))])
  {
    assert IsIdentifier("version");
    LabelOnlyGatesBody(v);
  }

  lemma LabelOnlyGatesBody(v: Expression)
    ensures WriteBody([LabeledField("module", ["a"]), NewField("version")], 0, v,
                      [BlockItem(Block("module", ["a"], [])), BlockItem(Block("module", ["b"], []))])
         == [BlockItem(Block("module", ["a"], [Attr("version", v, DefaultDecor)])),
             BlockItem(Block("module", ["b"], [Attr("version", v, DefaultDecor)]))]
  {
    var fs := [LabeledField("module", ["a"]), NewField("version")];
    var a := Block("module", ["a"], []);
    assert SharesLabel(fs[0].labels, a.labels) by {
      assert fs[0].labels[0] == a.labels[0];
    }
    TwoBlocksWritten(fs, 0, v, a, Block("module", ["b"], []));
    WriteIntoEmpty(fs, 1, v);
  }

  /**
   * Before the last field, two blocks with the field's identifier are both
   * written one field further on as soon as the first passes the field's test.
   */
  lemma TwoBlocksWritten(fs: seq<Field>, i: nat, v: Expression, a: Block, b: Block)
    requires i + 1 < |fs| && Selects(fs[i], a) && b.ident == fs[i].name
    ensures WriteBody(fs, i, v, [BlockItem(a), BlockItem(b)])
         == [BlockItem(a.(body := WriteBody(fs, i + 1, v, a.body))), BlockItem(b.(body := WriteBody(fs, i + 1, v, b.body)))]
  {
    var body := [BlockItem(a), BlockItem(b)];
    assert Gate(body, fs[i]) by { assert body[0].BlockItem? && Selects(fs[i], body[0].block); }
    GatedBlockWritten(fs, i, v, body, 0);
    GatedBlockWritten(fs, i, v, body, 1);
    var r := WriteBody(fs, i, v, body);
    assert r == [r[0], r[1]];
  }

  /** Before the last field, a block with the identifier, in a gated body, is written one field further on. */
  lemma GatedBlockWritten(fs: seq<Field>, i: nat, v: Expression, body: Body, p: nat)
    requires i + 1 < |fs| && p < |body| && IsBlock(body[p], fs[i].name) && Gate(body, fs[i])
    ensures |WriteBody(fs, i, v, body)| == |body|
    ensures WriteBody(fs, i, v, body)[p] == BlockItem(body[p].block.(body := WriteBody(fs, i + 1, v, body[p].block.body)))
  {
    WriteBeforeLastField(fs, i, v, body);
  }

  /** At the last field, an empty body receives the attribute with the default decor. */
  lemma WriteIntoEmpty(fs: seq<Field>, i: nat, v: Expression)
    requires i + 1 == |fs|
    ensures WriteBody(fs, i, v, []) == [AttributeItem(Attribute(fs[i].name, v, DefaultDecor))]
  {
    WriteAtLastField(fs, i, v, []);
    assert LastAttrDecor([]) == None;
  }
}
