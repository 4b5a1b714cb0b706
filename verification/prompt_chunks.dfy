/**
  Splitting a tokenised prompt into fixed-size windows for the CLIP text encoder
  (`encode_prompt_inner` in run_ic_light_bg.py). The tokenizer itself is not modelled:
  its output ids, its `model_max_length` and its BOS/EOS ids are parameters.
*/
module PromptChunks {
  import opened Common

  type TokenId = int

  /** The only way the chunk comprehension can fail: `range(0, n, 0)` raises ValueError. */
  datatype ChunkError = ZeroStep

  /**
    `pad(x, p, i)`: exactly `i` elements, the first `i` of `x` when `x` is long enough,
    otherwise `x` followed by copies of `p`.
  */
  function Pad<T>(x: seq<T>, p: T, i: nat): (r: seq<T>)
    ensures |r| == i
    ensures forall k :: 0 <= k < i && k < |x| ==> r[k] == x[k]
    ensures forall k :: |x| <= k < i ==> r[k] == p
  {
    if |x| >= i then x[..i] else x + seq(i - |x|, _ => p)
  }

  /** `tokens[k*step : k*step + step]` with Python's clamping of the upper bound. */
  function Window(tokens: seq<TokenId>, step: nat, k: nat): (w: seq<TokenId>)
    requires step > 0 && k * step < |tokens|
    ensures 0 < |w| <= step
    ensures |w| == Min(step, |tokens| - k * step)
    ensures forall j :: 0 <= j < |w| ==> w[j] == tokens[k * step + j]
  {
    tokens[k * step .. Min(|tokens|, k * step + step)]
  }

  /** Every start offset of `range(0, len(tokens), step)` lies inside the token list. */
  lemma OffsetInside(n: nat, step: nat, k: nat)
    requires step > 0 && k < CeilDiv(n, step)
    ensures k * step < n
  {
    var q := CeilDiv(n, step);
    MulMonotone(k, q - 1, step);
  }

  /** The unpadded chunk: BOS, one window of tokens, EOS. */
  function Framed(w: seq<TokenId>, bos: TokenId, eos: TokenId): (f: seq<TokenId>)
    ensures |f| == |w| + 2
    ensures f[0] == bos && f[|f| - 1] == eos
    ensures f[1..|f| - 1] == w
  {
    var f := [bos] + w + [eos];
    assert f[1..|f| - 1] == w;
    f
  }

  /**
    The chunk list built by `encode_prompt_inner` from the tokenizer's ids: one padded,
    framed window per offset of `range(0, len(tokens), max_length - 2)`.
  */
  function Chunks(tokens: seq<TokenId>, maxLength: int, bos: TokenId, eos: TokenId)
    : (r: Result<seq<seq<TokenId>>, ChunkError>)
    ensures r.Failure? <==> maxLength == 2
    ensures maxLength < 2 ==> r == Success([])
    ensures r.Success? && maxLength > 2 ==>
              |r.value| == CeilDiv(|tokens|, maxLength - 2)
              && forall k :: 0 <= k < |r.value| ==> |r.value[k]| == maxLength
  {
    var step := maxLength - 2;
    if step == 0 then Failure(ZeroStep)
    else if step < 0 then Success([])
    else
      var count := CeilDiv(|tokens|, step);
      Success(seq(count, k requires 0 <= k < count =>
                           OffsetInside(|tokens|, step, k);
                           Pad(Framed(Window(tokens, step, k), bos, eos), eos, maxLength)))
  }

  /** Concatenation of a list of lists, built from the back. */
  function Flatten<T>(ss: seq<seq<T>>): seq<T>
  {
    if ss == [] then [] else Flatten(ss[..|ss| - 1]) + ss[|ss| - 1]
  }

  /** Drops every trailing occurrence of `e`. */
  function DropTrailing(s: seq<TokenId>, e: TokenId): (r: seq<TokenId>)
    ensures r <= s
    ensures r == [] || r[|r| - 1] != e
    ensures forall k :: |r| <= k < |s| ==> s[k] == e
  {
    if s == [] || s[|s| - 1] != e then s else DropTrailing(s[..|s| - 1], e)
  }

  /** Inverse of framing and padding: remove the leading BOS and the trailing EOS run. */
  function Unframe(chunk: seq<TokenId>, eos: TokenId): seq<TokenId>
  {
    if chunk == [] then [] else DropTrailing(chunk[1..], eos)
  }

  function Decode(chunks: seq<seq<TokenId>>, eos: TokenId): seq<TokenId>
  {
    Flatten(seq(|chunks|, k requires 0 <= k < |chunks| => Unframe(chunks[k], eos)))
  }

  /** Chunk `k` is window `k`, framed and padded. */
  lemma ChunkAt(tokens: seq<TokenId>, maxLength: int, bos: TokenId, eos: TokenId, k: nat)
    requires maxLength > 2
    requires k < CeilDiv(|tokens|, maxLength - 2)
    ensures Chunks(tokens, maxLength, bos, eos).Success?
    ensures k * (maxLength - 2) < |tokens|
    ensures Chunks(tokens, maxLength, bos, eos).value[k]
            == Pad(Framed(Window(tokens, maxLength - 2, k), bos, eos), eos, maxLength)
  {
    OffsetInside(|tokens|, maxLength - 2, k);
  }

  /** A window framed with BOS and EOS and padded with EOS to a length it fits in. */
  lemma FramedLayout(w: seq<TokenId>, bos: TokenId, eos: TokenId, maxLength: nat)
    requires |w| + 2 <= maxLength
    ensures var ck := Pad(Framed(w, bos, eos), eos, maxLength);
            && |ck| == maxLength
            && ck[0] == bos
            && ck[1..|w| + 1] == w
            && forall j :: |w| + 1 <= j < maxLength ==> ck[j] == eos
  {
    var f := Framed(w, bos, eos);
    var ck := Pad(f, eos, maxLength);
    assert ck[..|f|] == f;
    assert ck[1..|w| + 1] == f[1..|w| + 1] == w;
  }

  /**
    Padding never truncates: every chunk is BOS, then its window of tokens, then EOS,
    then only EOS up to `maxLength`.
  */
  lemma ChunkLayout(tokens: seq<TokenId>, maxLength: int, bos: TokenId, eos: TokenId, k: nat)
    requires maxLength > 2
    requires k < CeilDiv(|tokens|, maxLength - 2)
    ensures Chunks(tokens, maxLength, bos, eos).Success?
    ensures k * (maxLength - 2) < |tokens|
    ensures var ck := Chunks(tokens, maxLength, bos, eos).value[k];
            var w := Window(tokens, maxLength - 2, k);
            && |ck| == maxLength
            && ck[0] == bos
            && ck[1..|w| + 1] == w
            && forall j :: |w| + 1 <= j < maxLength ==> ck[j] == eos
  {
    ChunkAt(tokens, maxLength, bos, eos, k);
    FramedLayout(Window(tokens, maxLength - 2, k), bos, eos, maxLength);
  }

  /**
    The number of chunks is the ceiling of `len(tokens) / (max_length - 2)`: enough
    windows to hold every token, and no window left empty.
  */
  lemma ChunkCount(tokens: seq<TokenId>, maxLength: int, bos: TokenId, eos: TokenId)
    requires maxLength > 2
    ensures Chunks(tokens, maxLength, bos, eos).Success?
    ensures var n := |Chunks(tokens, maxLength, bos, eos).value|;
            && n * (maxLength - 2) >= |tokens|
            && (n > 0 ==> (n - 1) * (maxLength - 2) < |tokens|)
            && (n == 0 <==> tokens == [])
  {
    var n := |Chunks(tokens, maxLength, bos, eos).value|;
    if tokens == [] {
      assert n * (maxLength - 2) >= 0;
    }
  }

  /** The first `m` windows of the token list, in order. */
  function Windows(tokens: seq<TokenId>, step: nat, m: nat): (ws: seq<seq<TokenId>>)
    requires step > 0 && m <= CeilDiv(|tokens|, step)
    ensures |ws| == m
  {
    if m == 0 then []
    else
      OffsetInside(|tokens|, step, m - 1);
      Windows(tokens, step, m - 1) + [Window(tokens, step, m - 1)]
  }

  lemma {:induction false} WindowsAt(tokens: seq<TokenId>, step: nat, m: nat, k: nat)
    requires step > 0 && m <= CeilDiv(|tokens|, step) && k < m
    ensures k * step < |tokens|
    ensures Windows(tokens, step, m)[k] == Window(tokens, step, k)
  {
    OffsetInside(|tokens|, step, k);
    if k < m - 1 {
      WindowsAt(tokens, step, m - 1, k);
    }
  }

  /** Window `m - 1` continues the first `(m - 1) * step` tokens up to `min(len, m * step)`. */
  lemma NextWindow(tokens: seq<TokenId>, step: nat, m: nat)
    requires step > 0 && 0 < m <= CeilDiv(|tokens|, step)
    ensures (m - 1) * step < |tokens|
    ensures tokens[..(m - 1) * step] + Window(tokens, step, m - 1) == tokens[..Min(|tokens|, m * step)]
  {
    OffsetInside(|tokens|, step, m - 1);
    var lo := (m - 1) * step;
    var hi := Min(|tokens|, m * step);
    assert lo + step == m * step;
    assert Window(tokens, step, m - 1) == tokens[lo..hi];
  }

  /** The first `m` windows, concatenated, are exactly the first `min(len, m * step)` tokens. */
  lemma {:induction false} WindowsCoverPrefix(tokens: seq<TokenId>, step: nat, m: nat)
    requires step > 0 && m <= CeilDiv(|tokens|, step)
    ensures Flatten(Windows(tokens, step, m)) == tokens[..Min(|tokens|, m * step)]
  {
    if m > 0 {
      var ws := Windows(tokens, step, m);
      WindowsCoverPrefix(tokens, step, m - 1);
      NextWindow(tokens, step, m);
      assert ws[..m - 1] == Windows(tokens, step, m - 1);
      assert Min(|tokens|, (m - 1) * step) == (m - 1) * step;
    }
  }

  /** Dropping a trailing run of `e` from `w + run` recovers `w` when `w` does not end in `e`. */
  lemma {:induction false} DropTrailingRun(w: seq<TokenId>, run: seq<TokenId>, e: TokenId)
    requires w == [] || w[|w| - 1] != e
    requires forall j :: 0 <= j < |run| ==> run[j] == e
    ensures DropTrailing(w + run, e) == w
  {
    if run == [] {
      assert w + run == w;
    } else {
      var s := w + run;
      assert s[|s| - 1] == e;
      assert s[..|s| - 1] == w + run[..|run| - 1];
      DropTrailingRun(w, run[..|run| - 1], e);
    }
  }

  /** Unframing a padded, framed window gives back the window when it does not end in EOS. */
  lemma UnframePadded(w: seq<TokenId>, bos: TokenId, eos: TokenId, maxLength: nat)
    requires |w| + 2 <= maxLength
    requires w == [] || w[|w| - 1] != eos
    ensures Unframe(Pad(Framed(w, bos, eos), eos, maxLength), eos) == w
  {
    FramedLayout(w, bos, eos, maxLength);
    var ck := Pad(Framed(w, bos, eos), eos, maxLength);
    var body := ck[1..];
    var run := body[|w|..];
    assert body[..|w|] == w;
    assert body == body[..|w|] + run;
    forall j | 0 <= j < |run| ensures run[j] == eos {
      assert run[j] == ck[|w| + 1 + j];
    }
    DropTrailingRun(w, run, eos);
  }

  /** Unframing a chunk gives back its window, as long as EOS is not itself a token. */
  lemma UnframeChunk(tokens: seq<TokenId>, maxLength: int, bos: TokenId, eos: TokenId, k: nat)
    requires maxLength > 2 && eos !in tokens
    requires k < CeilDiv(|tokens|, maxLength - 2)
    ensures Chunks(tokens, maxLength, bos, eos).Success?
    ensures k * (maxLength - 2) < |tokens|
    ensures Unframe(Chunks(tokens, maxLength, bos, eos).value[k], eos)
            == Window(tokens, maxLength - 2, k)
  {
    ChunkAt(tokens, maxLength, bos, eos, k);
    WindowAvoids(tokens, maxLength - 2, k, eos);
    UnframePadded(Window(tokens, maxLength - 2, k), bos, eos, maxLength);
  }

  /** A window of a token list that does not contain `e` does not end in `e`. */
  lemma WindowAvoids(tokens: seq<TokenId>, step: nat, k: nat, e: TokenId)
    requires step > 0 && k * step < |tokens| && e !in tokens
    ensures var w := Window(tokens, step, k); w[|w| - 1] != e
  {
    var w := Window(tokens, step, k);
    assert w[|w| - 1] == tokens[k * step + |w| - 1];
  }

  /**
    Round trip: stripping BOS, EOS and padding from every chunk and concatenating the
    windows gives back the tokenizer's ids exactly.
  */
  lemma ChunksRoundTrip(tokens: seq<TokenId>, maxLength: int, bos: TokenId, eos: TokenId)
    requires maxLength > 2 && eos !in tokens
    ensures Chunks(tokens, maxLength, bos, eos).Success?
    ensures Decode(Chunks(tokens, maxLength, bos, eos).value, eos) == tokens
  {
    var step := maxLength - 2;
    var cs := Chunks(tokens, maxLength, bos, eos).value;
    var m := |cs|;
    WindowsCoverPrefix(tokens, step, m);
    var ws := Windows(tokens, step, m);
    var us := seq(m, k requires 0 <= k < m => Unframe(cs[k], eos));
    forall k | 0 <= k < m ensures us[k] == ws[k] {
      UnframeChunk(tokens, maxLength, bos, eos, k);
      WindowsAt(tokens, step, m, k);
    }
    assert us == ws;
    assert Min(|tokens|, m * step) == |tokens|;
  }
}
