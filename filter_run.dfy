/**
 * What the filter loops of the two applications (app.c and main.cpp) share: where a
 * line of the input ends, the outcome of a run, and the bytes a run writes.
 */
module FilterRun {
  import opened Ints

  /** The index of the first '\n' of `s`, or `|s|` when there is none. */
  function NextNewline(s: seq<uint8>): (k: nat)
    ensures k <= |s|
    ensures k < |s| ==> s[k] == NEWLINE
    ensures forall j :: 0 <= j < k ==> s[j] != NEWLINE
  {
    if s == [] || s[0] == NEWLINE then 0 else 1 + NextNewline(s[1..])
  }

  /** The filter's bits after a run, and whether each key was written. */
  datatype Run = Run(bits: seq<bool>, written: seq<bool>)

  /** The bytes a run writes: each written key followed by '\n'. */
  function Output(keys: seq<seq<uint8>>, written: seq<bool>): (out: seq<uint8>)
    requires |keys| == |written|
  {
    if keys == [] then []
    else
      var n := |keys| - 1;
      Output(keys[..n], written[..n]) + (if written[n] then keys[n] + [NEWLINE] else [])
  }
}
