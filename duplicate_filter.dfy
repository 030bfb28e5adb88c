/**
 * The duplicate filter of the processing service: records of the input topic
 * are re-keyed by their message body, counted per body in a table, and the
 * table's updates whose count is exactly 1 are written to the output topic
 * with the message body as key and the count as payload.
 *
 * The topology is modelled as a deterministic state machine. `Step` and `Run`
 * are the pure specification; `DuplicateFilterProcessor` holds the count table
 * that the `count()` operator updates in place, and `FilterTopic` feeds a whole
 * input topic through one processor.
 */
module DuplicateFilter {

  /** A record of the input topic: a routing key and a message body. */
  datatype Record = Record(key: string, value: string)

  /** A record of the output topic: the message body as key, its count as payload. */
  datatype OutputRecord = OutputRecord(key: string, count: nat)

  datatype Option<T> = None | Some(value: T)

  /** A count-table entry: created at 1 and only ever incremented. */
  type Count = n: nat | n >= 1 witness 1

  /** The count table and everything written to the output topic so far. */
  datatype State = State(counts: map<string, Count>, out: seq<OutputRecord>)

  const Initial: State := State(map[], [])

  /** The key selector of `groupBy`: the new key is the message body; the old key is dropped. */
  function GroupKey(r: Record): string
  {
    r.value
  }

  /** The predicate of `filter` on the count table's changelog. */
  predicate IsFirstCount(count: nat)
  {
    count == 1
  }

  /** The count of `v` in the table, 0 when the table has no entry for it. */
  function Lookup(counts: map<string, Count>, v: string): nat
  {
    if v in counts then counts[v] else 0
  }

  // ---------------------------------------------------------------------
  // Reference definitions, independent of the state machine
  // ---------------------------------------------------------------------

  /** The message bodies of `inputs`, in arrival order. */
  function ValuesOf(inputs: seq<Record>): (vs: seq<string>)
    ensures |vs| == |inputs|
    ensures forall i :: 0 <= i < |inputs| ==> vs[i] == inputs[i].value
    decreases |inputs|
  {
    if inputs == [] then [] else ValuesOf(inputs[..|inputs| - 1]) + [inputs[|inputs| - 1].value]
  }

  /** How many records of `inputs` carry the message body `v`. */
  function Occurrences(inputs: seq<Record>, v: string): nat
  {
    multiset(ValuesOf(inputs))[v]
  }

  /** The distinct message bodies of `inputs`. */
  function Distinct(inputs: seq<Record>): set<string>
  {
    set v | v in ValuesOf(inputs)
  }

  /** The keys of the records written to the output topic. */
  function Keys(out: seq<OutputRecord>): set<string>
  {
    set e | e in out :: e.key
  }

  // ---------------------------------------------------------------------
  // The topology as a state machine
  // ---------------------------------------------------------------------

  /**
   * One input record through groupBy, count and filter: the entry of its body
   * is read (0 when absent) and written back incremented, and the updated
   * entry is written downstream when its count is 1.
   */
  function Step(s: State, r: Record): State
  {
    var v := GroupKey(r);
    var c := Lookup(s.counts, v) + 1;
    State(s.counts[v := c], if IsFirstCount(c) then s.out + [OutputRecord(v, c)] else s.out)
  }

  /**
   * The state after the records of `inputs`, in order, starting from an empty
   * table.
   */
  function Run(inputs: seq<Record>): State
    decreases |inputs|
  {
    if inputs == [] then Initial
    else
      var n := |inputs| - 1;
      Step(Run(inputs[..n]), inputs[n])
  }

  // ---------------------------------------------------------------------
  // One step
  // ---------------------------------------------------------------------

  /** A step bumps the count of the record's body by exactly one and leaves every other count alone. */
  lemma StepBumpsOneCount(s: State, r: Record, u: string)
    ensures u in Step(s, r).counts <==> u in s.counts || u == r.value
    ensures Lookup(Step(s, r).counts, u) == Lookup(s.counts, u) + (if u == r.value then 1 else 0)
  {
  }

  /** A step writes (body, 1) downstream iff the body had no entry before, and nothing otherwise. */
  lemma StepEmitsIffAbsent(s: State, r: Record)
    ensures Step(s, r).out ==
      if r.value in s.counts then s.out else s.out + [OutputRecord(r.value, 1)]
  {
  }

  /** Grouping ignores the input key: records with the same body update the same entry. */
  lemma GroupingIgnoresKey(s: State, r1: Record, r2: Record)
    requires r1.value == r2.value
    ensures Step(s, r1) == Step(s, r2)
  {
  }

  // ---------------------------------------------------------------------
  // Helper facts
  // ---------------------------------------------------------------------

  lemma RunLast(inputs: seq<Record>)
    requires inputs != []
    ensures Run(inputs) == Step(Run(inputs[..|inputs| - 1]), inputs[|inputs| - 1])
  {
  }

  lemma RunSnoc(inputs: seq<Record>, r: Record)
    ensures Run(inputs + [r]) == Step(Run(inputs), r)
  {
    assert (inputs + [r])[..|inputs|] == inputs;
    RunLast(inputs + [r]);
  }

  lemma ValuesOfLast(inputs: seq<Record>)
    requires inputs != []
    ensures ValuesOf(inputs) == ValuesOf(inputs[..|inputs| - 1]) + [inputs[|inputs| - 1].value]
  {
  }

  lemma ValuesOfConcat(a: seq<Record>, b: seq<Record>)
    ensures ValuesOf(a + b) == ValuesOf(a) + ValuesOf(b)
  {
    assert |ValuesOf(a + b)| == |ValuesOf(a) + ValuesOf(b)|;
    forall i | 0 <= i < |a + b|
      ensures ValuesOf(a + b)[i] == (ValuesOf(a) + ValuesOf(b))[i]
    {
      if i < |a| {
        assert (a + b)[i] == a[i];
      } else {
        assert (a + b)[i] == b[i - |a|];
      }
    }
  }

  // ---------------------------------------------------------------------
  // Counting
  // ---------------------------------------------------------------------

  /** Empty input: empty table, nothing written downstream. */
  lemma EmptyInput()
    ensures Run([]).counts == map[] && Run([]).out == []
  {
  }

  /** After any input, the count of every body is its number of occurrences. */
  lemma {:induction false} CountsAreOccurrences(inputs: seq<Record>, v: string)
    ensures Lookup(Run(inputs).counts, v) == Occurrences(inputs, v)
    ensures v in Run(inputs).counts <==> v in ValuesOf(inputs)
    decreases |inputs|
  {
    if inputs != [] {
      var n := |inputs| - 1;
      var prev := inputs[..n];
      CountsAreOccurrences(prev, v);
      RunLast(inputs);
      StepBumpsOneCount(Run(prev), inputs[n], v);
      ValuesOfLast(inputs);
      assert multiset(ValuesOf(inputs)) == multiset(ValuesOf(prev)) + multiset{inputs[n].value};
    }
  }

  /** The table has an entry for exactly the bodies seen; bodies never seen are absent. */
  lemma TableKeysAreDistinctValues(inputs: seq<Record>)
    ensures Run(inputs).counts.Keys == Distinct(inputs)
  {
    forall v | true
      ensures v in Run(inputs).counts <==> v in Distinct(inputs)
    {
      CountsAreOccurrences(inputs, v);
    }
  }

  /** Counts never decrease: a prefix of the input never has a larger count. */
  lemma {:induction false} CountsNeverDecrease(inputs: seq<Record>, n: nat, v: string)
    requires n <= |inputs|
    ensures Lookup(Run(inputs[..n]).counts, v) <= Lookup(Run(inputs).counts, v)
    decreases |inputs|
  {
    if n < |inputs| {
      var m := |inputs| - 1;
      assert inputs[..m][..n] == inputs[..n];
      CountsNeverDecrease(inputs[..m], n, v);
      RunLast(inputs);
      StepBumpsOneCount(Run(inputs[..m]), inputs[m], v);
    } else {
      assert inputs[..n] == inputs;
    }
  }

  /** Two inputs with the same bodies in the same order give the same state, whatever their keys. */
  lemma {:induction false} RunIgnoresKeys(a: seq<Record>, b: seq<Record>)
    requires ValuesOf(a) == ValuesOf(b)
    ensures Run(a) == Run(b)
    decreases |a|
  {
    assert |a| == |ValuesOf(a)| == |b|;
    if a != [] {
      var n := |a| - 1;
      ValuesOfLast(a);
      ValuesOfLast(b);
      assert ValuesOf(a[..n]) == ValuesOf(a)[..n] == ValuesOf(b)[..n] == ValuesOf(b[..n]);
      RunIgnoresKeys(a[..n], b[..n]);
      assert a[n].value == ValuesOf(a)[n] == ValuesOf(b)[n] == b[n].value;
      GroupingIgnoresKey(Run(a[..n]), a[n], b[n]);
      RunLast(a);
      RunLast(b);
    }
  }

  // ---------------------------------------------------------------------
  // Emission
  // ---------------------------------------------------------------------

  /** Exactly one record has been written downstream per table entry. */
  lemma {:induction false} OneOutputPerEntry(inputs: seq<Record>)
    ensures |Run(inputs).out| == |Run(inputs).counts|
    decreases |inputs|
  {
    if inputs != [] {
      var n := |inputs| - 1;
      var prev := Run(inputs[..n]);
      var v := inputs[n].value;
      OneOutputPerEntry(inputs[..n]);
      RunLast(inputs);
      StepEmitsIffAbsent(prev, inputs[n]);
      StepBumpsOneCount(prev, inputs[n], v);
      if v in prev.counts {
        assert Step(prev, inputs[n]).counts.Keys == prev.counts.Keys;
      } else {
        assert Step(prev, inputs[n]).counts.Keys == prev.counts.Keys + {v};
      }
    }
  }

  /**
   * The record at position i is written downstream, as (body, 1), if and only
   * if its body occurs nowhere earlier in the input.
   */
  lemma EmitsIffFirstOccurrence(inputs: seq<Record>, i: nat)
    requires i < |inputs|
    ensures Run(inputs[..i + 1]).out ==
      Run(inputs[..i]).out +
      (if inputs[i].value in ValuesOf(inputs[..i]) then [] else [OutputRecord(inputs[i].value, 1)])
  {
    assert inputs[..i + 1] == inputs[..i] + [inputs[i]];
    RunSnoc(inputs[..i], inputs[i]);
    StepEmitsIffAbsent(Run(inputs[..i]), inputs[i]);
    CountsAreOccurrences(inputs[..i], inputs[i].value);
  }

  /** The record at position i is written downstream iff its updated count is 1. */
  lemma EmitsIffCountIsOne(inputs: seq<Record>, i: nat)
    requires i < |inputs|
    ensures |Run(inputs[..i + 1]).out| == |Run(inputs[..i]).out| + 1
      <==> Lookup(Run(inputs[..i + 1]).counts, inputs[i].value) == 1
    ensures |Run(inputs[..i + 1]).out| == |Run(inputs[..i]).out|
      <==> Lookup(Run(inputs[..i + 1]).counts, inputs[i].value) > 1
  {
    assert inputs[..i + 1] == inputs[..i] + [inputs[i]];
    RunSnoc(inputs[..i], inputs[i]);
    StepEmitsIffAbsent(Run(inputs[..i]), inputs[i]);
    StepBumpsOneCount(Run(inputs[..i]), inputs[i], inputs[i].value);
  }

  /**
   * Every body is written downstream at most once, always with count 1, and
   * the keys written are exactly the bodies that have a table entry.
   */
  lemma {:induction false} EmittedOncePerValue(inputs: seq<Record>)
    ensures var out := Run(inputs).out;
      forall j, k :: 0 <= j < k < |out| ==> out[j].key != out[k].key
    ensures forall e :: e in Run(inputs).out ==> e.count == 1
    ensures Keys(Run(inputs).out) == Run(inputs).counts.Keys
    decreases |inputs|
  {
    if inputs != [] {
      var n := |inputs| - 1;
      var prev := Run(inputs[..n]);
      var v := inputs[n].value;
      EmittedOncePerValue(inputs[..n]);
      RunLast(inputs);
      StepEmitsIffAbsent(prev, inputs[n]);
      assert forall u :: u in Step(prev, inputs[n]).counts <==> u in prev.counts || u == v by {
        forall u ensures u in Step(prev, inputs[n]).counts <==> u in prev.counts || u == v {
          StepBumpsOneCount(prev, inputs[n], u);
        }
      }
      if v !in prev.counts {
        assert Keys(prev.out + [OutputRecord(v, 1)]) == Keys(prev.out) + {v};
      }
    }
  }

  /** The output topic carries exactly one record per distinct body of the input. */
  lemma EmittedKeysAreDistinctValues(inputs: seq<Record>)
    ensures Keys(Run(inputs).out) == Distinct(inputs)
    ensures |Run(inputs).out| == |Distinct(inputs)|
  {
    EmittedOncePerValue(inputs);
    TableKeysAreDistinctValues(inputs);
    OneOutputPerEntry(inputs);
    assert |Run(inputs).counts| == |Run(inputs).counts.Keys|;
  }

  /** What is written for a prefix of the input is a prefix of what is written for all of it. */
  lemma {:induction false} OutputOfPrefixIsPrefix(inputs: seq<Record>, n: nat)
    requires n <= |inputs|
    ensures Run(inputs[..n]).out <= Run(inputs).out
    decreases |inputs|
  {
    if n < |inputs| {
      var m := |inputs| - 1;
      assert inputs[..m][..n] == inputs[..n];
      OutputOfPrefixIsPrefix(inputs[..m], n);
      RunLast(inputs);
      StepEmitsIffAbsent(Run(inputs[..m]), inputs[m]);
    } else {
      assert inputs[..n] == inputs;
    }
  }

  /**
   * The first occurrence of a body at position i is written downstream at the
   * position equal to the number of distinct bodies before i.
   */
  lemma FirstOccurrenceEmittedAt(inputs: seq<Record>, i: nat)
    requires i < |inputs|
    requires inputs[i].value !in ValuesOf(inputs[..i])
    ensures var p := |Run(inputs[..i]).out|;
      p == |Distinct(inputs[..i])| &&
      p < |Run(inputs).out| && Run(inputs).out[p] == OutputRecord(inputs[i].value, 1)
  {
    EmitsIffFirstOccurrence(inputs, i);
    OutputOfPrefixIsPrefix(inputs, i + 1);
    OneOutputPerEntry(inputs[..i]);
    TableKeysAreDistinctValues(inputs[..i]);
    var before, after := Run(inputs[..i]).out, Run(inputs[..i + 1]).out;
    assert after == before + [OutputRecord(inputs[i].value, 1)];
    assert after[|before|] == Run(inputs).out[|before|];
  }

  /** Bodies are written downstream in the order of their first occurrence. */
  lemma EmittedInFirstOccurrenceOrder(inputs: seq<Record>, i: nat, j: nat)
    requires i < j < |inputs|
    requires inputs[i].value !in ValuesOf(inputs[..i])
    requires inputs[j].value !in ValuesOf(inputs[..j])
    ensures var out, p, q := Run(inputs).out, |Run(inputs[..i]).out|, |Run(inputs[..j]).out|;
      p < q < |out| && out[p].key == inputs[i].value && out[q].key == inputs[j].value
  {
    var p, q := |Run(inputs[..i]).out|, |Run(inputs[..j]).out|;
    assert p < q by {
      EmitsIffFirstOccurrence(inputs, i);
      assert inputs[..j][..i + 1] == inputs[..i + 1];
      OutputOfPrefixIsPrefix(inputs[..j], i + 1);
    }
    FirstOccurrenceEmittedAt(inputs, i);
    FirstOccurrenceEmittedAt(inputs, j);
  }

  // ---------------------------------------------------------------------
  // Order independence
  // ---------------------------------------------------------------------

  lemma {:induction false} PermutedValues(a: seq<Record>, b: seq<Record>)
    requires multiset(a) == multiset(b)
    ensures multiset(ValuesOf(a)) == multiset(ValuesOf(b))
    decreases |a|
  {
    if a == [] {
      assert |b| == |multiset(b)| == 0;
    } else {
      var n := |a| - 1;
      var x := a[n];
      assert a == a[..n] + [x];
      assert x in multiset(b);
      var i :| 0 <= i < |b| && b[i] == x;
      var rest := b[..i] + b[i + 1..];
      assert b == b[..i] + [x] + b[i + 1..];
      assert multiset(rest) == multiset(b) - multiset{x};
      assert multiset(a[..n]) == multiset(a) - multiset{x};
      PermutedValues(a[..n], rest);
      ValuesOfConcat(a[..n], [x]);
      ValuesOfConcat(b[..i], [x]);
      ValuesOfConcat(b[..i] + [x], b[i + 1..]);
      ValuesOfConcat(b[..i], b[i + 1..]);
    }
  }

  /**
   * The final table and the set of keys written downstream depend only on how
   * often each body occurs: not on the order of the input, nor on its keys.
   */
  lemma SameValuesSameResult(a: seq<Record>, b: seq<Record>)
    requires multiset(ValuesOf(a)) == multiset(ValuesOf(b))
    ensures Run(a).counts == Run(b).counts
    ensures Keys(Run(a).out) == Keys(Run(b).out)
  {
    forall v | true
      ensures Lookup(Run(a).counts, v) == Lookup(Run(b).counts, v)
      ensures v in Run(a).counts <==> v in Run(b).counts
    {
      CountsAreOccurrences(a, v);
      CountsAreOccurrences(b, v);
    }
    assert Run(a).counts.Keys == Run(b).counts.Keys;
    EmittedOncePerValue(a);
    EmittedOncePerValue(b);
  }

  /** Permuting the input leaves the final table and the set of keys written unchanged. */
  lemma PermutationInvariant(a: seq<Record>, b: seq<Record>)
    requires multiset(a) == multiset(b)
    ensures Run(a).counts == Run(b).counts
    ensures Keys(Run(a).out) == Keys(Run(b).out)
  {
    PermutedValues(a, b);
    SameValuesSameResult(a, b);
  }

  // ---------------------------------------------------------------------
  // The count() operator's state store, updated in place
  // ---------------------------------------------------------------------

  class DuplicateFilterProcessor {
    /** The count table, keyed by message body. */
    var counts: map<string, Count>
    /** The records consumed so far. */
    ghost var consumed: seq<Record>

    ghost predicate Valid()
      reads this
    {
      counts == Run(consumed).counts
    }

    constructor ()
      ensures Valid() && consumed == [] && counts == map[]
    {
      counts := map[];
      consumed := [];
    }

    /**
     * Reads the table entry for the record's body, writes it back incremented
     * and forwards (body, 1) when the updated count is 1.
     */
    method Process(r: Record) returns (forwarded: Option<OutputRecord>)
      requires Valid()
      modifies this
      ensures Valid() && consumed == old(consumed) + [r]
      ensures counts == old(counts)[r.value := Lookup(old(counts), r.value) + 1]
      ensures forwarded == if r.value in old(counts) then None else Some(OutputRecord(r.value, 1))
      ensures forwarded.Some? <==> Occurrences(consumed, r.value) == 1
      ensures Run(consumed).out ==
        Run(old(consumed)).out + (if forwarded.Some? then [forwarded.value] else [])
    {
      ghost var before := Run(consumed);
      var v := GroupKey(r);
      var c: Count := Lookup(counts, v) + 1;
      counts := counts[v := c];
      assert counts == old(counts)[r.value := Lookup(old(counts), r.value) + 1];
      if IsFirstCount(c) {
        forwarded := Some(OutputRecord(v, c));
      } else {
        forwarded := None;
      }
      RunSnoc(consumed, r);
      StepEmitsIffAbsent(before, r);
      consumed := consumed + [r];
      assert Run(consumed) == Step(before, r);
      assert counts == Step(before, r).counts;
      CountsAreOccurrences(consumed, v);
    }
  }

  /**
   * Streams every record of an input topic through a fresh processor and
   * returns what is written to the output topic and the final table: each body
   * once, in order of first occurrence, and its number of occurrences.
   */
  method FilterTopic(inputs: seq<Record>) returns (out: seq<OutputRecord>, table: map<string, Count>)
    ensures out == Run(inputs).out && table == Run(inputs).counts
    ensures table.Keys == Distinct(inputs)
    ensures forall v :: v in table ==> table[v] == Occurrences(inputs, v)
    ensures Keys(out) == Distinct(inputs)
  {
    var processor := new DuplicateFilterProcessor();
    out := [];
    for i := 0 to |inputs|
      invariant processor.Valid() && processor.consumed == inputs[..i]
      invariant out == Run(inputs[..i]).out
    {
      var forwarded := processor.Process(inputs[i]);
      if forwarded.Some? {
        out := out + [forwarded.value];
      }
      assert inputs[..i + 1] == inputs[..i] + [inputs[i]];
    }
    assert inputs[..|inputs|] == inputs;
    table := processor.counts;
    forall v | v in table
      ensures table[v] == Occurrences(inputs, v)
    {
      CountsAreOccurrences(inputs, v);
    }
    TableKeysAreDistinctValues(inputs);
    EmittedOncePerValue(inputs);
  }

  // ---------------------------------------------------------------------
  // Worked scenarios
  // ---------------------------------------------------------------------

  /** One more record on top of a known state: its body's count is bumped, and (body, 1) written when new. */
  lemma RunSnocFrom(prefix: seq<Record>, r: Record, counts: map<string, Count>, out: seq<OutputRecord>)
    requires Run(prefix).counts == counts && Run(prefix).out == out
    ensures Run(prefix + [r]).counts == counts[r.value := Lookup(counts, r.value) + 1]
    ensures Run(prefix + [r]).out ==
      if r.value in counts then out else out + [OutputRecord(r.value, 1)]
  {
    RunSnoc(prefix, r);
    StepEmitsIffAbsent(Run(prefix), r);
  }

  /** A single record, whatever its key, creates its body's entry at 1 and writes (body, 1). */
  lemma FirstRecord(r: Record)
    ensures Run([r]).counts == map[r.value := 1]
    ensures Run([r]).out == [OutputRecord(r.value, 1)]
  {
    assert [] + [r] == [r];
    RunSnocFrom([], r, map[], []);
  }

  /** The state after the first two records of the mixed scenario. */
  lemma ScenarioMixedFirstTwo(r1: Record, r2: Record)
    requires r1.value == "a" && r2.value == "b"
    ensures Run([r1, r2]).counts == map["a" := 1, "b" := 1]
    ensures Run([r1, r2]).out == [OutputRecord("a", 1), OutputRecord("b", 1)]
  {
    FirstRecord(r1);
    assert [r1] + [r2] == [r1, r2];
    RunSnocFrom([r1], r2, map["a" := 1], [OutputRecord("a", 1)]);
  }

  /** The state after the first four records of the mixed scenario. */
  lemma ScenarioMixedFirstFour(r1: Record, r2: Record, r3: Record, r4: Record)
    requires r1.value == "a" && r2.value == "b" && r3.value == "a" && r4.value == "c"
    ensures var s := Run([r1, r2, r3, r4]);
      s.counts == map["a" := 2, "b" := 1, "c" := 1] &&
      s.out == [OutputRecord("a", 1), OutputRecord("b", 1), OutputRecord("c", 1)]
  {
    var ab := [OutputRecord("a", 1), OutputRecord("b", 1)];
    ScenarioMixedFirstTwo(r1, r2);
    assert Run([r1, r2, r3]).counts == map["a" := 2, "b" := 1] && Run([r1, r2, r3]).out == ab by {
      assert [r1, r2] + [r3] == [r1, r2, r3];
      RunSnocFrom([r1, r2], r3, map["a" := 1, "b" := 1], ab);
    }
    assert [r1, r2, r3] + [r4] == [r1, r2, r3, r4];
    RunSnocFrom([r1, r2, r3], r4, map["a" := 2, "b" := 1], ab);
  }

  /** ["a","b","a","c","b","a"] writes a, b and c once each, in that order. */
  lemma ScenarioMixed()
    ensures Run([Record("k1", "a"), Record("k2", "b"), Record("k3", "a"),
                 Record("k4", "c"), Record("k5", "b"), Record("k6", "a")]).out
      == [OutputRecord("a", 1), OutputRecord("b", 1), OutputRecord("c", 1)]
  {
    var r1, r2, r3 := Record("k1", "a"), Record("k2", "b"), Record("k3", "a");
    var r4, r5, r6 := Record("k4", "c"), Record("k5", "b"), Record("k6", "a");
    var four := [r1, r2, r3, r4];
    ScenarioMixedFirstFour(r1, r2, r3, r4);
    assert "b" in Run(four).counts;
    RunSnoc(four, r5);
    StepEmitsIffAbsent(Run(four), r5);
    StepBumpsOneCount(Run(four), r5, "a");
    assert "a" in Run(four + [r5]).counts;
    RunSnoc(four + [r5], r6);
    StepEmitsIffAbsent(Run(four + [r5]), r6);
    assert four + [r5] + [r6] == [r1, r2, r3, r4, r5, r6];
  }

  /** ["x","x","x"] writes x once; its count ends at 3. */
  lemma ScenarioRepeated()
    ensures var s := Run([Record("k", "x"), Record("k", "x"), Record("k", "x")]);
      s.out == [OutputRecord("x", 1)] && s.counts == map["x" := 3]
  {
    var r := Record("k", "x");
    FirstRecord(r);
    assert Run([r, r]).counts == map["x" := 2] && Run([r, r]).out == [OutputRecord("x", 1)] by {
      assert [r] + [r] == [r, r];
      RunSnocFrom([r], r, map["x" := 1], [OutputRecord("x", 1)]);
    }
    assert [r, r] + [r] == [r, r, r];
    RunSnocFrom([r, r], r, map["x" := 2], [OutputRecord("x", 1)]);
  }

  /** A single record writes its body once with count 1. */
  lemma ScenarioSingle()
    ensures Run([Record("k", "z")]) == State(map["z" := 1], [OutputRecord("z", 1)])
  {
    FirstRecord(Record("k", "z"));
  }
}
