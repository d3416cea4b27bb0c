// Values and sequence facts shared by the modules: an optional value, the
// reversal of a sequence, and the facts used by the loops that delete list
// elements while walking from the end of the list towards its front.

module SeqSteps {

  datatype Option<T> = None | Some(value: T)

  /** The sequence read back to front. */
  function Reversed<T>(s: seq<T>): (r: seq<T>)
    ensures |r| == |s|
    ensures forall i :: 0 <= i < |s| ==> r[i] == s[|s| - 1 - i]
  {
    seq(|s|, i requires 0 <= i < |s| => s[|s| - 1 - i])
  }

  /**
   * `xs[..i + 1] + tail` seen from index i: element i is `xs[i]`, deleting it
   * leaves `xs[..i] + tail`, and keeping it puts it in front of `tail`.
   */
  lemma SplitAt<T>(xs: seq<T>, i: nat, tail: seq<T>, ys: seq<T>)
    requires i < |xs| && ys == xs[..i + 1] + tail
    ensures ys[i] == xs[i]
    ensures ys[..i] + ys[i + 1..] == xs[..i] + tail
    ensures ys == xs[..i] + ([xs[i]] + tail)
  {
    assert xs[..i + 1] == xs[..i] + [xs[i]];
    assert ys[..i] == xs[..i];
    assert ys[i + 1..] == tail;
  }
}
