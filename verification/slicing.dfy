/** Python's `xs[:stop]` for an integer `stop`, including negative values. */
module Slicing {

  /**
   * `xs[:stop]`: a non-negative `stop` keeps at most `stop` elements; a
   * negative one counts from the end and keeps all but the last `-stop`.
   */
  function Prefix<T>(xs: seq<T>, stop: int): (r: seq<T>)
    ensures 0 <= stop ==> |r| == (if stop <= |xs| then stop else |xs|)
    ensures stop < 0 ==> |r| == (if -stop <= |xs| then |xs| + stop else 0)
    ensures r == xs[..|r|]
  {
    var n :=
      if stop < 0 then (if |xs| + stop < 0 then 0 else |xs| + stop)
      else if stop > |xs| then |xs|
      else stop;
    xs[..n]
  }

  /** A negative `stop` drops exactly the last `-stop` elements. */
  lemma PrefixDropsTail<T>(xs: seq<T>, tail: seq<T>)
    requires |tail| > 0
    ensures Prefix(xs + tail, -|tail|) == xs
  {
  }

  /** A negative `stop` reaching past the front leaves nothing. */
  lemma PrefixOfNegativeBeyondLength<T>(xs: seq<T>, stop: int)
    requires stop < 0 && -stop >= |xs|
    ensures Prefix(xs, stop) == []
  {
  }

  /** A `stop` at least the length keeps everything. */
  lemma PrefixBeyondLength<T>(xs: seq<T>, stop: int)
    requires stop >= |xs|
    ensures Prefix(xs, stop) == xs
  {
  }
}
