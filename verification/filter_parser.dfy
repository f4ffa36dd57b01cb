/**
 * Filter fields and the fold that turns the parser's token stream into them
 * (`src/filter/parser.rs`). The grammar itself is not part of this model: a
 * successful parse is given as its sequence of top-level pairs, each pair as
 * the sequence of its inner tokens.
 */
module FilterParser {
  import opened Wrappers

  /** One dotted step of a filter: a name and the labels a block must share. */
  datatype Field = Field(name: string, labels: seq<string>)

  /** `Field::new`: an unlabeled field. */
  function NewField(name: string): (f: Field)
    ensures f.name == name && f.labels == []
  {
    Field(name, [])
  }

  /** `Field::labeled`: the labels are kept in the given order and count. */
  function LabeledField(name: string, labels: seq<string>): (f: Field)
    ensures f.name == name
    ensures |f.labels| == |labels| && forall k | 0 <= k < |labels| :: f.labels[k] == labels[k]
  {
    Field(name, labels)
  }

  /** The grammar rule an inner token was produced by. */
  datatype Rule = NameRule | LabelRule | OtherRule

  datatype Token = Token(rule: Rule, text: string)

  /** A syntax error reported by the grammar (rendered elsewhere). */
  datatype FilterError = FilterError(message: string)

  // ---------------------------------------------------------------------------
  // Reference readings of one pair

  predicate HasName(tokens: seq<Token>) {
    exists p | 0 <= p < |tokens| :: tokens[p].rule == NameRule
  }

  /** The text of the last name token, or "" when there is none. */
  function LastName(tokens: seq<Token>): string {
    if tokens == [] then ""
    else if tokens[|tokens| - 1].rule == NameRule then tokens[|tokens| - 1].text
    else LastName(tokens[..|tokens| - 1])
  }

  /** The texts of the label tokens, in order. */
  function LabelTexts(tokens: seq<Token>): seq<string> {
    if tokens == [] then []
    else (if tokens[0].rule == LabelRule then [tokens[0].text] else []) + LabelTexts(tokens[1..])
  }

  /** The tokens of the name and label rules, in order. */
  function Significant(tokens: seq<Token>): seq<Token> {
    if tokens == [] then []
    else (if tokens[0].rule == OtherRule then [] else [tokens[0]]) + Significant(tokens[1..])
  }

  // ---------------------------------------------------------------------------
  // The fold of `parse_filter`

  /**
   * The inner loop over one pair: a name token overwrites the name, a label
   * token is appended to the labels, anything else is skipped.
   */
  function FoldPair(tokens: seq<Token>, name: string, labels: seq<string>): (string, seq<string>) {
    if tokens == [] then (name, labels)
    else
      match tokens[0].rule
      case NameRule => FoldPair(tokens[1..], tokens[0].text, labels)
      case LabelRule => FoldPair(tokens[1..], name, labels + [tokens[0].text])
      case OtherRule => FoldPair(tokens[1..], name, labels)
  }

  /** The field one pair yields: none when its name is empty. */
  function PairField(tokens: seq<Token>): Option<Field> {
    var (name, labels) := FoldPair(tokens, "", []);
    if name == "" then None else Some(Field(name, labels))
  }

  /** The outer loop of `parse_filter` over the top-level pairs. */
  function FieldsOfPairs(pairs: seq<seq<Token>>): (fields: seq<Field>)
    ensures |fields| <= |pairs|
    ensures forall k | 0 <= k < |fields| :: fields[k].name != ""
  {
    if pairs == [] then []
    else
      var first := PairField(pairs[0]);
      (if first.Some? then [first.value] else []) + FieldsOfPairs(pairs[1..])
  }

  /** `parse_filter`, from the grammar's outcome onward. */
  function ParseFilter(parsed: Result<seq<seq<Token>>, FilterError>): (r: Result<seq<Field>, FilterError>)
    ensures parsed.Err? ==> r.Err? && r.error == parsed.error
    ensures parsed.Ok? ==> r.Ok? && |r.value| <= |parsed.value|
    ensures r.Ok? ==> forall k | 0 <= k < |r.value| :: r.value[k].name != ""
  {
    match parsed
    case Err(e) => Err(e)
    case Ok(pairs) => Ok(FieldsOfPairs(pairs))
  }

  // ---------------------------------------------------------------------------
  // Properties

  lemma HasNameCons(t: Token, rest: seq<Token>)
    ensures HasName([t] + rest) <==> t.rule == NameRule || HasName(rest)
  {
    var all := [t] + rest;
    if HasName(all) {
      var p :| 0 <= p < |all| && all[p].rule == NameRule;
      if p > 0 { assert rest[p - 1] == all[p]; }
    }
    if HasName(rest) {
      var p :| 0 <= p < |rest| && rest[p].rule == NameRule;
      assert all[p + 1] == rest[p];
    }
    assert all[0] == t;
  }

  /** Dropping a last token that is not a name keeps `HasName`. */
  lemma HasNameInit(tokens: seq<Token>)
    requires tokens != [] && tokens[|tokens| - 1].rule != NameRule
    ensures HasName(tokens) <==> HasName(tokens[..|tokens| - 1])
  {
    var init := tokens[..|tokens| - 1];
    if HasName(tokens) {
      var p :| 0 <= p < |tokens| && tokens[p].rule == NameRule;
      assert init[p] == tokens[p];
    }
    if HasName(init) {
      var p :| 0 <= p < |init| && init[p].rule == NameRule;
      assert tokens[p] == init[p];
    }
  }

  lemma {:induction false} LastNameCons(t: Token, rest: seq<Token>)
    ensures HasName([t] + rest) <==> t.rule == NameRule || HasName(rest)
    ensures LastName([t] + rest) == if HasName(rest) then LastName(rest) else if t.rule == NameRule then t.text else ""
    decreases |rest|
  {
    HasNameCons(t, rest);
    var all := [t] + rest;
    if rest == [] {
      assert all == [t];
      assert all[..0] == [];
      assert !HasName(rest);
    } else {
      var last := rest[|rest| - 1];
      var init := rest[..|rest| - 1];
      assert all[|all| - 1] == last;
      assert all[..|all| - 1] == [t] + init;
      if last.rule != NameRule {
        LastNameCons(t, init);
        HasNameInit(rest);
      } else {
        assert HasName(rest) by { assert rest[|rest| - 1].rule == NameRule; }
      }
    }
  }

  /**
   * The pair fold reads as: the name is the last name token's text (the
   * accumulator's name when there is none), and the label tokens' texts are
   * appended in order.
   */
  lemma {:induction false} FoldPairReads(tokens: seq<Token>, name: string, labels: seq<string>)
    ensures FoldPair(tokens, name, labels)
         == (if HasName(tokens) then LastName(tokens) else name, labels + LabelTexts(tokens))
  {
    if tokens == [] {
      assert labels + LabelTexts(tokens) == labels;
    } else {
      var t, rest := tokens[0], tokens[1..];
      assert tokens == [t] + rest;
      LastNameCons(t, rest);
      match t.rule
      case NameRule =>
        FoldPairReads(rest, t.text, labels);
        assert LabelTexts(tokens) == LabelTexts(rest);
      case LabelRule =>
        FoldPairReads(rest, name, labels + [t.text]);
        assert labels + [t.text] + LabelTexts(rest) == labels + ([t.text] + LabelTexts(rest));
      case OtherRule =>
        FoldPairReads(rest, name, labels);
        assert LabelTexts(tokens) == LabelTexts(rest);
    }
  }

  /** The field of one pair: last name token, all label tokens in order. */
  lemma PairFieldReads(tokens: seq<Token>)
    ensures PairField(tokens).None? <==> LastName(tokens) == ""
    ensures PairField(tokens).Some? ==> PairField(tokens).value == Field(LastName(tokens), LabelTexts(tokens))
  {
    FoldPairReads(tokens, "", []);
    if !HasName(tokens) {
      LastNameEmptyWithoutName(tokens);
    }
  }

  lemma {:induction false} LastNameEmptyWithoutName(tokens: seq<Token>)
    requires !HasName(tokens)
    ensures LastName(tokens) == ""
  {
    if tokens != [] {
      var init := tokens[..|tokens| - 1];
      assert forall p | 0 <= p < |init| :: init[p] == tokens[p];
      assert tokens[|tokens| - 1].rule != NameRule;
      LastNameEmptyWithoutName(init);
    }
  }

  /** Tokens of other rules never influence the field a pair yields. */
  lemma {:induction false} OtherTokensIgnored(tokens: seq<Token>, name: string, labels: seq<string>)
    ensures FoldPair(Significant(tokens), name, labels) == FoldPair(tokens, name, labels)
  {
    if tokens != [] {
      var t := tokens[0];
      match t.rule
      case NameRule =>
        OtherTokensIgnored(tokens[1..], t.text, labels);
        assert ([t] + Significant(tokens[1..]))[1..] == Significant(tokens[1..]);
      case LabelRule =>
        OtherTokensIgnored(tokens[1..], name, labels + [t.text]);
        assert ([t] + Significant(tokens[1..]))[1..] == Significant(tokens[1..]);
      case OtherRule =>
        OtherTokensIgnored(tokens[1..], name, labels);
        assert Significant(tokens) == Significant(tokens[1..]);
    }
  }

  /** Fields follow pair order: the fold distributes over concatenation of pair streams. */
  lemma {:induction false} FieldsOfPairsAppend(a: seq<seq<Token>>, b: seq<seq<Token>>)
    ensures FieldsOfPairs(a + b) == FieldsOfPairs(a) + FieldsOfPairs(b)
  {
    if a == [] {
      assert a + b == b;
    } else {
      assert (a + b)[0] == a[0];
      assert (a + b)[1..] == a[1..] + b;
      FieldsOfPairsAppend(a[1..], b);
    }
  }

  /** One pair yields exactly one field when its name is non-empty, none otherwise. */
  lemma FieldsOfOnePair(pair: seq<Token>)
    ensures LastName(pair) == "" ==> FieldsOfPairs([pair]) == []
    ensures LastName(pair) != "" ==> FieldsOfPairs([pair]) == [Field(LastName(pair), LabelTexts(pair))]
  {
    PairFieldReads(pair);
    assert [pair][1..] == [];
  }
}
