/**
 * `trace_tag(data)`: checks that `data` is a dictionary of strings to strings,
 * warns about keys longer than 50 and values longer than 70 characters, and,
 * only in the AWS runtime with `APP_ENV` "Prod", forwards every pair as an
 * execution tag cut to those limits. The environment is given as parameters
 * and the warnings and forwarded tags are returned instead of being emitted.
 */
module Trace {
  import opened Models
  import opened PyText

  /** The Python values the check distinguishes; a dictionary keeps its pairs in insertion order. */
  datatype PyValue = PyStr(s: string) | PyDict(entries: seq<(PyValue, PyValue)>) | PyOther

  const MaxKey: nat := 50
  const MaxValue: nat := 70

  /** A logged warning, holding the text the message shows (the value, for both kinds). */
  datatype TraceWarning = KeyTooLong(shown: string) | ValueTooLong(shown: string)

  datatype TraceOutcome =
    | ValueError
    | Traced(warnings: seq<TraceWarning>, tags: seq<(string, string)>)

  predicate IsStrDict(data: PyValue) {
    data.PyDict? && forall i | 0 <= i < |data.entries| :: data.entries[i].0.PyStr? && data.entries[i].1.PyStr?
  }

  /** The pairs of a dictionary of strings, as strings. */
  function StrPairs(data: PyValue): (r: seq<(string, string)>)
    requires IsStrDict(data)
    ensures |r| == |data.entries|
    ensures forall i | 0 <= i < |r| :: data.entries[i] == (PyStr(r[i].0), PyStr(r[i].1))
  {
    seq(|data.entries|, i requires 0 <= i < |data.entries| => (data.entries[i].0.s, data.entries[i].1.s))
  }

  /** The warnings of one pair: key first, then value. */
  function PairWarnings(key: string, value: string): seq<TraceWarning> {
    (if |key| > MaxKey then [KeyTooLong(value)] else []) + (if |value| > MaxValue then [ValueTooLong(value)] else [])
  }

  /** The warnings of all pairs, in dictionary order. */
  function Warnings(pairs: seq<(string, string)>): seq<TraceWarning> {
    if pairs == [] then []
    else Warnings(pairs[..|pairs| - 1]) + PairWarnings(pairs[|pairs| - 1].0, pairs[|pairs| - 1].1)
  }

  /** Tags go out only when the AWS runtime is detected and the application runs as "Prod". */
  predicate Forwarding(awsExecutionEnv: Option<string>, appEnv: string) {
    awsExecutionEnv.Some? && appEnv == "Prod"
  }

  /** A pair as forwarded: key cut to 50 characters, value to 70. */
  function Tag(pair: (string, string)): (t: (string, string))
    ensures |t.0| == (if |pair.0| <= MaxKey then |pair.0| else MaxKey) && StartsWith(pair.0, t.0)
    ensures |t.1| == (if |pair.1| <= MaxValue then |pair.1| else MaxValue) && StartsWith(pair.1, t.1)
    ensures |pair.0| <= MaxKey && |pair.1| <= MaxValue ==> t == pair
  {
    (Truncate(pair.0, MaxKey), Truncate(pair.1, MaxValue))
  }

  method TraceTag(data: PyValue, awsExecutionEnv: Option<string>, appEnv: string) returns (outcome: TraceOutcome)
    ensures outcome.ValueError? <==> !IsStrDict(data)
    ensures outcome.Traced? ==> outcome.warnings == Warnings(StrPairs(data))
    ensures outcome.Traced? && !Forwarding(awsExecutionEnv, appEnv) ==> outcome.tags == []
    ensures outcome.Traced? && Forwarding(awsExecutionEnv, appEnv) ==>
      |outcome.tags| == |data.entries| && forall i | 0 <= i < |outcome.tags| :: outcome.tags[i] == Tag(StrPairs(data)[i])
  {
    if !data.PyDict? {
      return ValueError;
    }
    var entries := data.entries;
    for i := 0 to |entries|
      invariant forall j | 0 <= j < i :: entries[j].0.PyStr? && entries[j].1.PyStr?
    {
      if !entries[i].0.PyStr? || !entries[i].1.PyStr? {
        return ValueError;
      }
    }
    var pairs := StrPairs(data);
    var warnings := [];
    for i := 0 to |pairs|
      invariant warnings == Warnings(pairs[..i])
    {
      assert pairs[..i + 1][..i] == pairs[..i];
      var (key, value) := pairs[i];
      if |key| > MaxKey {
        warnings := warnings + [KeyTooLong(value)];
      }
      if |value| > MaxValue {
        warnings := warnings + [ValueTooLong(value)];
      }
    }
    assert pairs[..|pairs|] == pairs;
    if awsExecutionEnv.None? || appEnv != "Prod" {
      return Traced(warnings, []);
    }
    var tags := [];
    for i := 0 to |pairs|
      invariant |tags| == i
      invariant forall j | 0 <= j < i :: tags[j] == Tag(pairs[j])
    {
      var (key, value) := pairs[i];
      tags := tags + [(Truncate(key, MaxKey), Truncate(value, MaxValue))];
    }
    return Traced(warnings, tags);
  }

  /** The text a pair's warnings show. */
  function Shown(w: TraceWarning): string {
    match w
    case KeyTooLong(v) => v
    case ValueTooLong(v) => v
  }

  /** A warning is logged exactly when forwarding would cut something. */
  lemma {:induction false} WarnedIffCut(pairs: seq<(string, string)>)
    ensures Warnings(pairs) == [] <==> forall i | 0 <= i < |pairs| :: Tag(pairs[i]) == pairs[i]
  {
    if pairs != [] {
      var init := pairs[..|pairs| - 1];
      var last := pairs[|pairs| - 1];
      WarnedIffCut(init);
      assert forall i | 0 <= i < |init| :: init[i] == pairs[i];
      if Tag(last) != last {
        assert |last.0| > MaxKey || |last.1| > MaxValue;
        assert PairWarnings(last.0, last.1) != [];
      }
    }
  }

  /** Every warning shows the value of some pair over a limit. */
  lemma {:induction false} WarningsShowLongPairs(pairs: seq<(string, string)>)
    ensures forall w <- Warnings(pairs) :: exists i ::
      && 0 <= i < |pairs|
      && Shown(w) == pairs[i].1
      && (|pairs[i].0| > MaxKey || |pairs[i].1| > MaxValue)
    ensures |Warnings(pairs)| <= 2 * |pairs|
  {
    if pairs != [] {
      var init := pairs[..|pairs| - 1];
      var n := |pairs| - 1;
      WarningsShowLongPairs(init);
      forall w <- Warnings(pairs) ensures exists i ::
        && 0 <= i < |pairs|
        && Shown(w) == pairs[i].1
        && (|pairs[i].0| > MaxKey || |pairs[i].1| > MaxValue)
      {
        if w in Warnings(init) {
          var i :| 0 <= i < |init| && Shown(w) == init[i].1 && (|init[i].0| > MaxKey || |init[i].1| > MaxValue);
          assert pairs[i] == init[i];
        } else {
          assert w in PairWarnings(pairs[n].0, pairs[n].1);
        }
      }
    }
  }
}
