/**
 The counter store: named counters, created on first use, one map per kind
 (grain types, system-target types). A counter is its current value; a name
 with no entry has not been asked for yet.
 */
module CounterStore {

  type Counters = map<string, int>

  /** The value a counter would show: its stored value, or 0 for a counter not yet created. */
  function ValueOf(c: Counters, name: string): int
  {
    if name in c then c[name] else 0
  }

  /** Get-or-create: the existing counter is kept; a missing one is stored starting at zero. */
  function FindOrCreate(c: Counters, name: string): (r: Counters)
    ensures name in r && r[name] == ValueOf(c, name)
    ensures name in c ==> r == c
    ensures r.Keys == c.Keys + {name}
    ensures forall n :: n in c ==> r[n] == c[n]
  {
    if name in c then c else c[name := 0]
  }

  /** Finds or creates the counter `name`, then moves it by `delta`; no other counter changes. */
  function Adjust(c: Counters, name: string, delta: int): (r: Counters)
    ensures r.Keys == c.Keys + {name}
    ensures r[name] == ValueOf(c, name) + delta
    ensures forall n :: n != name ==> ValueOf(r, n) == ValueOf(c, n)
    ensures forall n :: n in c && n != name ==> r[n] == c[n]
  {
    var created := FindOrCreate(c, name);
    created[name := created[name] + delta]
  }

  /** The statistics view: exactly the counters whose current value is greater than zero. */
  function Positive(c: Counters): (r: map<string, int>)
    ensures forall n :: n in r <==> n in c && c[n] > 0
    ensures forall n :: n in r ==> r[n] == c[n] && r[n] > 0
  {
    map n | n in c && c[n] > 0 :: c[n]
  }

  /** An increment followed by a decrement of the same counter leaves only the created counter behind. */
  lemma AdjustUndo(c: Counters, name: string, delta: int)
    ensures Adjust(Adjust(c, name, delta), name, -delta) == FindOrCreate(c, name)
  {
    var r, f := Adjust(Adjust(c, name, delta), name, -delta), FindOrCreate(c, name);
    assert r.Keys == f.Keys;
    forall n | n in r
      ensures r[n] == f[n]
    {
      if n != name {
        assert ValueOf(r, n) == ValueOf(c, n);
      }
    }
  }

  /** How one adjustment shows in the statistics: the counter appears with its new value if positive, else drops out. */
  lemma PositiveAfterAdjust(c: Counters, name: string, delta: int)
    ensures var v := ValueOf(c, name) + delta;
      Positive(Adjust(c, name, delta)) == if v > 0 then Positive(c)[name := v] else Positive(c) - {name}
  {
    var v := ValueOf(c, name) + delta;
    var r := Positive(Adjust(c, name, delta));
    var expected := if v > 0 then Positive(c)[name := v] else Positive(c) - {name};
    forall n
      ensures n in r <==> n in expected
    {
      if n != name {
        assert ValueOf(Adjust(c, name, delta), n) == ValueOf(c, n);
      }
    }
    assert r.Keys == expected.Keys;
  }
}
