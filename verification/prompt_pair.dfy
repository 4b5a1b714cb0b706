/**
  Equalising the chunk counts of the conditional and unconditional prompt embeddings
  (`encode_prompt_pair` in run_ic_light_bg.py). A chunk embedding is opaque here.
*/
module PromptPair {
  import opened Common

  /** `max_count / c_len` on floats raises ZeroDivisionError when a prompt has no chunk. */
  datatype PairError = ZeroDivision

  /** `torch.cat([xs] * times, dim=0)`: `times` copies of `xs` back to back. */
  function Tile<T>(xs: seq<T>, times: nat): (r: seq<T>)
    ensures |r| == |xs| * times
    ensures |xs| > 0 ==> forall j :: 0 <= j < |r| ==> r[j] == xs[j % |xs|]
  {
    if times == 0 then []
    else
      var prev := Tile(xs, times - 1);
      AppendPeriod(xs, prev, times - 1);
      prev + xs
  }

  /** One more copy of `xs` after `q` copies keeps the sequence periodic. */
  lemma AppendPeriod<T>(xs: seq<T>, prev: seq<T>, q: nat)
    requires |prev| == |xs| * q
    requires |xs| > 0 ==> forall j :: 0 <= j < |prev| ==> prev[j] == xs[j % |xs|]
    ensures |prev + xs| == |xs| * (q + 1)
    ensures |xs| > 0 ==> forall j :: 0 <= j < |prev + xs| ==> (prev + xs)[j] == xs[j % |xs|]
  {
    var r := prev + xs;
    assert |xs| * (q + 1) == |xs| * q + |xs|;
    if |xs| > 0 {
      forall j | 0 <= j < |r| ensures r[j] == xs[j % |xs|] {
        if j >= |prev| {
          ShiftedMod(j - |prev|, q, |xs|);
          assert j == (j - |prev|) + q * |xs|;
        }
      }
    }
  }

  /** Adding whole periods does not change a remainder. */
  lemma ShiftedMod(i: nat, q: nat, n: nat)
    requires 0 < n && i < n
    ensures (i + q * n) % n == i
  {
    var j := i + q * n;
    var d, m := j / n, j % n;
    assert d * n + m == q * n + i;
    if d < q {
      MulMonotone(d + 1, q, n);
    } else if d > q {
      MulMonotone(q + 1, d, n);
    }
  }

  /**
    One prompt's chunks repeated `ceil(max / len)` times and cut to `max` chunks, where
    `max` is the larger of the two chunk counts.
  */
  function Align<T>(xs: seq<T>, target: nat): (r: seq<T>)
    requires |xs| > 0
    ensures |r| == target
    ensures forall j :: 0 <= j < target ==> r[j] == xs[j % |xs|]
  {
    Tile(xs, CeilDiv(target, |xs|))[..target]
  }

  /**
    `encode_prompt_pair` after the two encoder calls: both chunk lists are brought to the
    larger length, or the float division fails when either list is empty.
  */
  function AlignPair<T>(c: seq<T>, uc: seq<T>): (r: Result<(seq<T>, seq<T>), PairError>)
    ensures r.Failure? <==> c == [] || uc == []
  {
    if |c| == 0 || |uc| == 0 then Failure(ZeroDivision)
    else
      var maxChunk := Max(|c|, |uc|);
      Success((Align(c, maxChunk), Align(uc, maxChunk)))
  }

  /**
    For non-empty inputs both aligned lists have the larger length, each is its input read
    cyclically, and the longer input comes back unchanged.
  */
  lemma AlignPairSpec<T>(c: seq<T>, uc: seq<T>)
    requires c != [] && uc != []
    ensures AlignPair(c, uc).Success?
    ensures var (c', uc') := AlignPair(c, uc).value;
            && |c'| == |uc'| == Max(|c|, |uc|)
            && (forall j :: 0 <= j < |c'| ==> c'[j] == c[j % |c|] && uc'[j] == uc[j % |uc|])
            && (|c| >= |uc| ==> c' == c)
            && (|uc| >= |c| ==> uc' == uc)
  {
    var (c', uc') := AlignPair(c, uc).value;
    if |c| >= |uc| {
      forall j | 0 <= j < |c| ensures c'[j] == c[j] {
        ShiftedMod(j, 0, |c|);
      }
    }
    if |uc| >= |c| {
      forall j | 0 <= j < |uc| ensures uc'[j] == uc[j] {
        ShiftedMod(j, 0, |uc|);
      }
    }
  }
}
