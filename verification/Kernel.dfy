/** Greedy suppression in the abstract: items are visited in a fixed order, and an item survives
    unless a surviving item visited earlier kills it.  `kills` need not be symmetric. */
module Kernel {

  ghost predicate Survives<T(!new)>(visited: seq<T>, kills: (T, T) -> bool, r: nat)
    requires r < |visited|
    decreases r
  {
    forall q | 0 <= q < r && kills(visited[q], visited[r]) :: !Survives(visited, kills, q)
  }

  /** The fixed-point equation: exactly the items no earlier member kills are members. */
  ghost predicate IsKernel<T(!new)>(visited: seq<T>, kills: (T, T) -> bool, alive: seq<bool>) {
    && |alive| == |visited|
    && forall r | 0 <= r < |visited| ::
         alive[r] <==> !exists q :: 0 <= q < r && alive[q] && kills(visited[q], visited[r])
  }

  /** The equation has exactly one solution, the surviving items. */
  lemma {:induction false} KernelUnique<T(!new)>(visited: seq<T>, kills: (T, T) -> bool, alive: seq<bool>)
    requires |alive| == |visited|
    ensures IsKernel(visited, kills, alive) <==>
            forall r | 0 <= r < |visited| :: alive[r] == Survives(visited, kills, r)
  {
    if IsKernel(visited, kills, alive) {
      forall r | 0 <= r < |visited| ensures alive[r] == Survives(visited, kills, r) {
        KernelAt(visited, kills, alive, r);
      }
    }
  }

  lemma {:induction false} KernelAt<T(!new)>(visited: seq<T>, kills: (T, T) -> bool, alive: seq<bool>, r: nat)
    requires IsKernel(visited, kills, alive) && r < |visited|
    ensures alive[r] == Survives(visited, kills, r)
    decreases r
  {
    forall q | 0 <= q < r ensures alive[q] == Survives(visited, kills, q) {
      KernelAt(visited, kills, alive, q);
    }
  }
}
