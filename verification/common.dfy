/** Shared definitions: the raise-or-return wrapper and index filtering over a list. */
module Common {

  /** `None` stands for a call that raised an exception; `Some(v)` for one that returned `v`. */
  datatype Option<+T> = None | Some(value: T)

  /** The positions at which `flags` holds, in ascending order: what a Python loop
      `for i, x in enumerate(xs): if p(x): out.append(i)` collects. */
  function IndicesOf(flags: seq<bool>): (r: seq<nat>)
    ensures forall k :: 0 <= k < |r| ==> r[k] < |flags| && flags[r[k]]
    ensures forall i :: 0 <= i < |flags| && flags[i] ==> i in r
    ensures forall k, l :: 0 <= k < l < |r| ==> r[k] < r[l]
    decreases |flags|
  {
    if flags == [] then []
    else
      var init := flags[..|flags| - 1];
      IndicesOf(init) + (if flags[|flags| - 1] then [|flags| - 1] else [])
  }
}
