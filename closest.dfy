/** The position of the list element nearest to a number (`indexOfClosest`). */
module Closest {
  import opened PyLists

  /** `abs(x - num)`. */
  function Distance(x: real, num: real): (d: real)
  {
    if x < num then num - x else x - num
  }

  /** `min(range(len(lst)), key = ...)` carried on from index `i` with the best
      index so far `best`; like Python's `min` it replaces the candidate only on
      a strictly smaller key, so it ends on the first minimiser. */
  function FirstMinimiser(lst: seq<real>, num: real, i: nat, best: nat): (m: nat)
    requires best < i <= |lst|
    requires forall j :: 0 <= j < i ==> Distance(lst[best], num) <= Distance(lst[j], num)
    requires forall j :: 0 <= j < best ==> Distance(lst[best], num) < Distance(lst[j], num)
    ensures m < |lst|
    ensures forall j :: 0 <= j < |lst| ==> Distance(lst[m], num) <= Distance(lst[j], num)
    ensures forall j :: 0 <= j < m ==> Distance(lst[m], num) < Distance(lst[j], num)
    decreases |lst| - i
  {
    if i == |lst| then best
    else if Distance(lst[i], num) < Distance(lst[best], num) then FirstMinimiser(lst, num, i + 1, i)
    else FirstMinimiser(lst, num, i + 1, best)
  }

  /** `indexOfClosest`: the index of the element nearest to `num`, the first one
      on ties; `min` of an empty range raises ValueError. */
  function IndexOfClosest(lst: seq<real>, num: real): (r: Result<nat>)
    ensures r.Err? <==> |lst| == 0
    ensures r.Err? ==> r.error == ValueError
    ensures r.Ok? ==> r.value < |lst|
    ensures r.Ok? ==> forall j :: 0 <= j < |lst| ==> Distance(lst[r.value], num) <= Distance(lst[j], num)
    ensures r.Ok? ==> forall j :: 0 <= j < r.value ==> Distance(lst[r.value], num) < Distance(lst[j], num)
  {
    if |lst| == 0 then Err(ValueError)
    else
      var m := FirstMinimiser(lst, num, 1, 0);
      var closest := lst[m];
      Index(lst, closest)
  }
}
