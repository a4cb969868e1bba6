/**
 * The AC map: an insertion-ordered dictionary from AC id to AC text
 * (`Dict[str, str]` in the planner). Insertion order is the default order
 * of ids everywhere, so the map is a sequence of entries with distinct keys.
 */
module AcMaps {
  import opened Wrappers
  import opened Seqs

  type Entry = (string, string)

  predicate DistinctKeys(m: seq<Entry>) {
    forall i, j :: 0 <= i < j < |m| ==> m[i].0 != m[j].0
  }

  type AcMap = m: seq<Entry> | DistinctKeys(m)

  /** `list(ac_map.keys())`. */
  function Keys(m: seq<Entry>): (r: seq<string>)
    ensures |r| == |m|
    ensures forall i :: 0 <= i < |m| ==> r[i] == m[i].0
  {
    seq(|m|, i requires 0 <= i < |m| => m[i].0)
  }

  lemma KeysDistinct(m: AcMap)
    ensures Distinct(Keys(m))
  {
  }

  lemma KeysPrefix(m: seq<Entry>, n: nat)
    requires n <= |m|
    ensures Keys(m[..n]) == Keys(m)[..n]
  {
  }

  /** `k in ac_map`. */
  predicate HasKey(m: seq<Entry>, k: string) {
    k in Keys(m)
  }

  /** `ac_map.get(k)`. */
  function Lookup(m: seq<Entry>, k: string): (r: Option<string>)
    ensures r.Some? <==> HasKey(m, k)
    ensures r.Some? ==> exists i :: 0 <= i < |m| && m[i] == (k, r.value)
  {
    if |m| == 0 then None
    else if m[0].0 == k then Some(m[0].1)
    else
      var r := Lookup(m[1..], k);
      assert Keys(m) == [m[0].0] + Keys(m[1..]);
      r
  }

  /** `ac_map.get(k, "")`. */
  function TextOf(m: seq<Entry>, k: string): string {
    Lookup(m, k).GetOr("")
  }
}
