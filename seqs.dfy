/** Reading and replacing a run of consecutive elements of a sequence. */
module Seqs {
  /**
   * The n elements of s from idx on.  A run of none is empty wherever it
   * starts, as a loop that runs zero times touches nothing.
   */
  function Window<T>(s: seq<T>, idx: nat, n: nat): (r: seq<T>)
    requires n == 0 || idx + n <= |s|
    ensures |r| == n
    ensures forall k | 0 <= k < n :: r[k] == s[idx + k]
  {
    if n == 0 then [] else s[idx .. idx + n]
  }

  /** Elements idx .. idx+|w|-1 of s replaced by w; replacing none leaves s as it is. */
  function Splice<T>(s: seq<T>, idx: nat, w: seq<T>): (r: seq<T>)
    requires |w| == 0 || idx + |w| <= |s|
    ensures |r| == |s|
  {
    if |w| == 0 then s else s[..idx] + w + s[idx + |w|..]
  }

  /** A splice holds w at idx and leaves every other element alone. */
  lemma SpliceAt<T>(s: seq<T>, idx: nat, w: seq<T>, k: nat)
    requires (|w| == 0 || idx + |w| <= |s|) && k < |s|
    ensures Splice(s, idx, w)[k] == if idx <= k < idx + |w| then w[k - idx] else s[k]
  {
  }

  /** Reading back the spliced run gives w. */
  lemma SpliceRead<T>(s: seq<T>, idx: nat, w: seq<T>)
    requires |w| == 0 || idx + |w| <= |s|
    ensures Window(Splice(s, idx, w), idx, |w|) == w
  {
    var r := Splice(s, idx, w);
    forall k | 0 <= k < |w|
      ensures Window(r, idx, |w|)[k] == w[k]
    {
      SpliceAt(s, idx, w, idx + k);
    }
  }
}
