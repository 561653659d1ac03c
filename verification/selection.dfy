/**
  Choosing the next process in SJF and SRTF. The source filters the records
  that are available (keeping array order) and sorts that list with a stable
  comparison on the key, then takes its head: the result is the available
  record with the least key, and among equal keys the one earliest in the array.
 */
module Selection {
  import opened Wrappers

  /** `i` is available, no available record has a smaller key, and every
      available record before `i` has a strictly larger key. */
  predicate IsChoice(avail: seq<bool>, keys: seq<int>, i: int)
    requires |avail| == |keys|
  {
    && 0 <= i < |avail|
    && avail[i]
    && (forall j :: 0 <= j < |avail| && avail[j] ==> keys[i] <= keys[j])
    && (forall j :: 0 <= j < i && avail[j] ==> keys[i] < keys[j])
  }

  /** The choice among positions `lo..` of the arrays. */
  function PickFrom(avail: seq<bool>, keys: seq<int>, lo: nat): (r: Option<nat>)
    requires |avail| == |keys| && lo <= |avail|
    ensures r.None? <==> forall j :: lo <= j < |avail| ==> !avail[j]
    ensures r.Some? ==>
              && lo <= r.value < |avail|
              && avail[r.value]
              && (forall j :: lo <= j < |avail| && avail[j] ==> keys[r.value] <= keys[j])
              && (forall j :: lo <= j < r.value && avail[j] ==> keys[r.value] < keys[j])
    decreases |avail| - lo
  {
    if lo == |avail| then None
    else
      var rest := PickFrom(avail, keys, lo + 1);
      if !avail[lo] then rest
      else if rest.None? || keys[lo] <= keys[rest.value] then Some(lo)
      else rest
  }

  /** The head of the stably sorted `available` list, or None when that list is empty. */
  function Pick(avail: seq<bool>, keys: seq<int>): (r: Option<nat>)
    requires |avail| == |keys|
    ensures r.None? <==> forall j :: 0 <= j < |avail| ==> !avail[j]
    ensures r.Some? ==> IsChoice(avail, keys, r.value)
  {
    PickFrom(avail, keys, 0)
  }
}
