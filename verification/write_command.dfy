/**
 * The argument check of the `write` subcommand: `<FILTER>=<VALUE>` is split
 * on `=` and must yield exactly two parts, the filter text and the value
 * text. Parsing either side is left to the filter and expression parsers.
 */
module WriteCommand {
  import opened Wrappers
  import opened Seqs

  /** The one message both rejections report. */
  const UsageError: string := "write expression should be <FILTER>=<VALUE>"

  /**
   * `str::split(sep)` collected: the maximal runs between separators, in
   * order; an input with `n` separators always yields `n + 1` parts, empty
   * ones included.
   */
  function SplitOn(s: string, sep: char): (parts: seq<string>)
    ensures |parts| == Count(s, sep) + 1
    ensures forall k | 0 <= k < |parts| :: sep !in parts[k]
  {
    if s == [] then [[]]
    else
      var rest := SplitOn(s[1..], sep);
      if s[0] == sep then [[]] + rest
      else [[s[0]] + rest[0]] + rest[1..]
  }

  /** The parts put back together, one separator between neighbours. */
  function Join(parts: seq<string>, sep: char): string
    requires |parts| > 0
  {
    if |parts| == 1 then parts[0] else parts[0] + [sep] + Join(parts[1..], sep)
  }

  /**
   * The validation in `write`: no `=` at all, or more than two parts, is the
   * usage error; otherwise the text before the `=` is the filter and the text
   * after it the value.
   */
  function ParseWriteExpr(expr: string): (r: Result<(string, string), string>)
    ensures r.Ok? <==> Count(expr, '=') == 1
    ensures r.Err? ==> r.error == UsageError
    ensures r.Ok? ==> r.value.0 + "=" + r.value.1 == expr
    ensures r.Ok? ==> '=' !in r.value.0 && '=' !in r.value.1
  {
    CountPositive(expr, '=');
    if '=' !in expr then Err(UsageError)
    else
      var parts := SplitOn(expr, '=');
      if |parts| != 2 then Err(UsageError)
      else
        SplitJoin(expr, '=');
        assert Join(parts[1..], '=') == parts[1];
        Ok((parts[0], parts[1]))
  }

  // ---------------------------------------------------------------------------
  // Properties

  /** Splitting loses nothing: joining the parts gives the input back. */
  lemma {:induction false} SplitJoin(s: string, sep: char)
    ensures Join(SplitOn(s, sep), sep) == s
  {
    if s != [] {
      var rest := SplitOn(s[1..], sep);
      SplitJoin(s[1..], sep);
      if s[0] == sep {
        assert ([[]] + rest)[1..] == rest;
        assert s == [] + [sep] + s[1..];
      } else if |rest| == 1 {
        assert s == [s[0]] + rest[0];
      } else {
        var parts := SplitOn(s, sep);
        assert parts[1..] == rest[1..];
        assert Join(rest, sep) == rest[0] + [sep] + Join(rest[1..], sep);
        assert s == [s[0]] + s[1..];
      }
    }
  }

  /** Parts free of the separator are recovered exactly by splitting their join. */
  lemma {:induction false} JoinSplit(parts: seq<string>, sep: char)
    requires |parts| > 0
    requires forall k | 0 <= k < |parts| :: sep !in parts[k]
    ensures SplitOn(Join(parts, sep), sep) == parts
    decreases |parts|, |parts[0]|
  {
    if |parts| == 1 {
      NoSeparatorSplit(parts[0], sep);
    } else if parts[0] == [] {
      var tail := Join(parts[1..], sep);
      assert Join(parts, sep) == [sep] + tail;
      assert ([sep] + tail)[1..] == tail;
      JoinSplit(parts[1..], sep);
      assert [[]] + parts[1..] == parts;
    } else {
      var s := Join(parts, sep);
      var shorter := [parts[0][1..]] + parts[1..];
      assert shorter[1..] == parts[1..];
      assert forall k | 1 <= k < |shorter| :: shorter[k] == parts[k];
      assert sep !in shorter[0] by {
        assert forall c | c in parts[0][1..] :: c in parts[0];
      }
      JoinSplit(shorter, sep);
      assert s == [parts[0][0]] + Join(shorter, sep);
      assert s[1..] == Join(shorter, sep);
      assert parts[0][0] != sep;
      assert parts[0] == [parts[0][0]] + parts[0][1..];
    }
  }

  lemma {:induction false} NoSeparatorSplit(s: string, sep: char)
    requires sep !in s
    ensures SplitOn(s, sep) == [s]
  {
    if s != [] {
      assert sep !in s[1..] by {
        assert forall c | c in s[1..] :: c in s;
      }
      NoSeparatorSplit(s[1..], sep);
      assert s == [s[0]] + s[1..];
    }
  }

  /**
   * `ParseWriteExpr` accepts every filter and value free of `=`, empty
   * ones included, and hands them back unchanged.
   */
  lemma WriteExprRoundTrip(filter: string, value: string)
    requires '=' !in filter && '=' !in value
    ensures ParseWriteExpr(filter + "=" + value) == Ok((filter, value))
  {
    var expr := filter + "=" + value;
    JoinSplit([filter, value], '=');
    assert Join([filter, value], '=') == expr by {
      assert [filter, value][1..] == [value];
    }
    CountPositive(expr, '=');
    assert expr[|filter|] == '=';
  }

  /** A value that itself contains `=` cannot be written through the command. */
  lemma ValueWithEqualsRejected(filter: string, value: string)
    requires '=' in value
    ensures ParseWriteExpr(filter + "=" + value).Err?
  {
    var expr := filter + "=" + value;
    CountAppend(filter + "=", value, '=');
    CountAppend(filter, "=", '=');
    CountPositive(value, '=');
    assert Count("=", '=') == 1;
  }
}
