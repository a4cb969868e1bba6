/**
 * `registry.py`: the ledger that keeps one title per canonical task key, so that the same
 * task is not generated twice. The first registration of a key wins; an empty key or title
 * registers nothing.
 */
module Registry {
  import opened Wrappers

  datatype TaskRegistry = TaskRegistry(keyToTitle: map<string, string>)

  /** A fresh ledger. */
  const EMPTY: TaskRegistry := TaskRegistry(map[])

  /** `has(key)`. */
  predicate Has(r: TaskRegistry, key: string) {
    key in r.keyToTitle
  }

  /** `get_title(key)`: the registered title, `None` for an unknown key. */
  function GetTitle(r: TaskRegistry, key: string): (t: Option<string>)
    ensures t.Some? <==> Has(r, key)
  {
    if key in r.keyToTitle then Some(r.keyToTitle[key]) else None
  }

  /** `register(key, title)`: records the title of a new, non-empty key; anything else
      leaves the ledger as it was. */
  function Register(r: TaskRegistry, key: string, title: string): (r': TaskRegistry)
    ensures Has(r', key) <==> Has(r, key) || (|key| > 0 && |title| > 0)
    ensures Has(r, key) || |key| == 0 || |title| == 0 ==> r' == r
    ensures !Has(r, key) && |key| > 0 && |title| > 0 ==> GetTitle(r', key) == Some(title)
    ensures forall k :: k != key ==> GetTitle(r', k) == GetTitle(r, k)
  {
    if |key| > 0 && |title| > 0 && key !in r.keyToTitle then TaskRegistry(r.keyToTitle[key := title]) else r
  }

  /** No key or title in the ledger is empty. */
  predicate Valid(r: TaskRegistry) {
    forall k :: k in r.keyToTitle ==> |k| > 0 && |r.keyToTitle[k]| > 0
  }

  /** Registration keeps the ledger free of empty keys and titles. */
  lemma RegisterValid(r: TaskRegistry, key: string, title: string)
    requires Valid(r)
    ensures Valid(Register(r, key, title))
  {
  }

  /** The first registration wins: registering a known key again, under any title, changes
      nothing. */
  lemma FirstWins(r: TaskRegistry, key: string, t1: string, t2: string)
    requires |key| > 0 && |t1| > 0 && !Has(r, key)
    ensures GetTitle(Register(Register(r, key, t1), key, t2), key) == Some(t1)
  {
  }

  /** Registrations of different keys commute. */
  lemma RegisterCommutes(r: TaskRegistry, k1: string, t1: string, k2: string, t2: string)
    requires k1 != k2
    ensures Register(Register(r, k1, t1), k2, t2) == Register(Register(r, k2, t2), k1, t1)
  {
    var a := Register(Register(r, k1, t1), k2, t2);
    var b := Register(Register(r, k2, t2), k1, t1);
    assert a.keyToTitle == b.keyToTitle;
  }

  /** A run of `register` calls, in order. */
  function RegisterAll(r: TaskRegistry, ps: seq<(string, string)>): TaskRegistry
    decreases |ps|
  {
    if |ps| == 0 then r else RegisterAll(Register(r, ps[0].0, ps[0].1), ps[1..])
  }

  /** The title of the first registration of `key` with a non-empty title, if any. */
  function FirstTitle(ps: seq<(string, string)>, key: string): (t: Option<string>)
    ensures t.Some? ==> |t.value| > 0
    decreases |ps|
  {
    if |ps| == 0 then None
    else if ps[0].0 == key && |key| > 0 && |ps[0].1| > 0 then Some(ps[0].1)
    else FirstTitle(ps[1..], key)
  }

  /** After a run of registrations on a fresh ledger, each key holds the title of its first
      valid registration, and unknown keys are exactly those never validly registered. */
  lemma RegisterAllFirst(ps: seq<(string, string)>, key: string)
    ensures GetTitle(RegisterAll(EMPTY, ps), key) == FirstTitle(ps, key)
  {
    RegisterAllFrom(EMPTY, ps, key);
  }

  lemma {:induction false} RegisterAllFrom(r: TaskRegistry, ps: seq<(string, string)>, key: string)
    ensures GetTitle(RegisterAll(r, ps), key) ==
      if Has(r, key) then GetTitle(r, key) else FirstTitle(ps, key)
    decreases |ps|
  {
    if |ps| > 0 {
      RegisterAllFrom(Register(r, ps[0].0, ps[0].1), ps[1..], key);
    }
  }
}
