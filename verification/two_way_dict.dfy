/** A dictionary keyed by unordered pairs of strings (two_way_dict.py): every
    key is stored with its smaller element first, in Python's string order. */
module TwoWayDicts {
  import opened Text
  import opened Wrappers

  /** `normalize_key`: the pair with the smaller element (by Python `<`) first. */
  function NormalizeKey(key: (string, string)): (r: (string, string))
    ensures r == key || r == (key.1, key.0)
    ensures !Less(r.1, r.0)
  {
    if Less(key.0, key.1) then LessAsymmetric(key.0, key.1); key else (key.1, key.0)
  }

  /** Both orders of a pair normalize to the same key. */
  lemma NormalizeSymmetric(a: string, b: string)
    ensures NormalizeKey((a, b)) == NormalizeKey((b, a))
  {
    if a != b {
      LessTotal(a, b);
      if Less(a, b) { LessAsymmetric(a, b); } else { LessAsymmetric(b, a); }
    }
  }

  /** Normalizing twice changes nothing. */
  lemma NormalizeIdempotent(key: (string, string))
    ensures NormalizeKey(NormalizeKey(key)) == NormalizeKey(key)
  {
    NormalizeSymmetric(key.0, key.1);
  }

  /** The pairs that normalize to the same key are exactly the two orders of one pair. */
  lemma NormalizeSameKey(k1: (string, string), k2: (string, string))
    ensures NormalizeKey(k1) == NormalizeKey(k2) <==> k1 == k2 || k1 == (k2.1, k2.0)
  {
    NormalizeSymmetric(k1.0, k1.1);
    NormalizeSymmetric(k2.0, k2.1);
  }

  /** The dictionary comprehension of `__init__`: items in order, a later item
      whose key normalizes like an earlier one overwriting it. */
  function FromItems<V>(items: seq<((string, string), V)>): (d: map<(string, string), V>)
    ensures forall k :: k in d ==> NormalizeKey(k) == k
  {
    if |items| == 0 then map[]
    else
      var last := items[|items| - 1];
      NormalizeIdempotent(last.0);
      FromItems(items[..|items| - 1])[NormalizeKey(last.0) := last.1]
  }

  /** In the constructor the last of the items that share a normalized key wins. */
  lemma {:induction false} FromItemsLastWins<V>(items: seq<((string, string), V)>, i: nat)
    requires i < |items|
    requires forall j :: i < j < |items| ==> NormalizeKey(items[j].0) != NormalizeKey(items[i].0)
    ensures NormalizeKey(items[i].0) in FromItems(items)
    ensures FromItems(items)[NormalizeKey(items[i].0)] == items[i].1
  {
    if i < |items| - 1 {
      FromItemsLastWins(items[..|items| - 1], i);
    }
  }

  /** A key is found in the comprehension iff some item normalizes to it. */
  lemma {:induction false} FromItemsKeys<V>(items: seq<((string, string), V)>, key: (string, string))
    ensures NormalizeKey(key) in FromItems(items) <==>
            exists j :: 0 <= j < |items| && NormalizeKey(items[j].0) == NormalizeKey(key)
  {
    if |items| > 0 {
      var init := items[..|items| - 1];
      FromItemsKeys(init, key);
      if exists j :: 0 <= j < |init| && NormalizeKey(init[j].0) == NormalizeKey(key) {
        var j :| 0 <= j < |init| && NormalizeKey(init[j].0) == NormalizeKey(key);
        assert items[j] == init[j];
      }
      if exists j :: 0 <= j < |items| && NormalizeKey(items[j].0) == NormalizeKey(key) {
        var j :| 0 <= j < |items| && NormalizeKey(items[j].0) == NormalizeKey(key);
        if j < |init| { assert init[j] == items[j]; }
      }
    }
  }

  /** The dictionary of two_way_dict.py. Only normalized keys are ever stored,
      so no pair is held under both of its orders. */
  class TwoWayDict<V> {
    var dict: map<(string, string), V>

    ghost predicate Valid()
      reads this
    {
      forall k :: k in dict ==> NormalizeKey(k) == k
    }

    /** `TwoWayDict(items)`; `None` stands for the default `items=None`. */
    constructor (items: Option<seq<((string, string), V)>>)
      ensures Valid()
      ensures dict == if items.None? then map[] else FromItems(items.value)
    {
      if items.None? {
        dict := map[];
      } else {
        dict := FromItems(items.value);
      }
    }

    /** `d[key] = value`: stored under the normalized key, every other key kept. */
    method Set(key: (string, string), value: V)
      requires Valid()
      modifies this
      ensures Valid()
      ensures dict == old(dict)[NormalizeKey(key) := value]
      ensures forall k :: k in old(dict) && k != NormalizeKey(key) ==> k in dict && dict[k] == old(dict)[k]
    {
      NormalizeIdempotent(key);
      dict := dict[NormalizeKey(key) := value];
    }

    /** `d[key]`: the value stored for either order of the pair, or a key error. */
    method Get(key: (string, string)) returns (r: Result<V>)
      ensures r.Ok? <==> NormalizeKey(key) in dict
      ensures r.Ok? ==> r.value == dict[NormalizeKey(key)]
      ensures r.Ok? <==> NormalizeKey((key.1, key.0)) in dict
      ensures r.Ok? ==> r.value == dict[NormalizeKey((key.1, key.0))]
      ensures r.Err? ==> r.error == KeyError
    {
      NormalizeSymmetric(key.0, key.1);
      var k := NormalizeKey(key);
      if k in dict {
        r := Ok(dict[k]);
      } else {
        r := Err(KeyError);
      }
    }
  }

  /** After `d[a, b] = v`, a lookup of either order finds `v`: the stored
      dictionary after `Set` is `dict[NormalizeKey((a, b)) := v]`, and `Get`
      reads the normalized key. */
  lemma SetThenGet<V>(dict: map<(string, string), V>, a: string, b: string, v: V)
    ensures var d := dict[NormalizeKey((a, b)) := v];
            && NormalizeKey((a, b)) in d && d[NormalizeKey((a, b))] == v
            && NormalizeKey((b, a)) in d && d[NormalizeKey((b, a))] == v
  {
    NormalizeSymmetric(a, b);
  }
}
