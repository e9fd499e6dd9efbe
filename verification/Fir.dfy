/** The streaming FIR filters: the direct form FIRFilterC and the padded, lane-split form
    FIRFilterAVX2, over the reals, against one definition of convolution. */
module Fir {

  // ---------- The convolution ----------

  // A signal that is silent before it starts and after it ends.
  function At(x: seq<real>, t: int): real {
    if 0 <= t < |x| then x[t] else 0.0
  }

  // The terms k, k + 1, ... of the convolution of c and x at time t.
  function ConvFrom(c: seq<real>, x: seq<real>, t: int, k: nat): real
    requires k <= |c|
    decreases |c| - k
  {
    if k == |c| then 0.0 else At(x, t - k) * c[k] + ConvFrom(c, x, t, k + 1)
  }

  /** The output of a filter with coefficients c for the sample x[t]. */
  function Conv(c: seq<real>, x: seq<real>, t: int): real {
    ConvFrom(c, x, t, 0)
  }

  function ConvAll(c: seq<real>, x: seq<real>): (y: seq<real>)
    ensures |y| == |x|
  {
    seq(|x|, t => Conv(c, x, t))
  }

  /** Outputs do not depend on later samples. */
  lemma {:induction false} ConvCausal(c: seq<real>, x: seq<real>, y: seq<real>, t: int, k: nat)
    requires t < |x| && k <= |c|
    ensures ConvFrom(c, x + y, t, k) == ConvFrom(c, x, t, k)
    decreases |c| - k
  {
    if k < |c| {
      ConvCausal(c, x, y, t, k + 1);
    }
  }

  /** Zero coefficients at the end do not change the output. */
  lemma {:induction false} ConvPadded(c: seq<real>, zeros: seq<real>, x: seq<real>, t: int, k: nat)
    requires k <= |c|
    requires forall i :: 0 <= i < |zeros| ==> zeros[i] == 0.0
    ensures ConvFrom(c + zeros, x, t, k) == ConvFrom(c, x, t, k)
    decreases |c| - k
  {
    if k == |c| {
      ConvZeros(c + zeros, x, t, k);
    } else {
      ConvPadded(c, zeros, x, t, k + 1);
    }
  }

  lemma {:induction false} ConvZeros(c: seq<real>, x: seq<real>, t: int, k: nat)
    requires k <= |c|
    requires forall i :: k <= i < |c| ==> c[i] == 0.0
    ensures ConvFrom(c, x, t, k) == 0.0
    decreases |c| - k
  {
    if k < |c| {
      ConvZeros(c, x, t, k + 1);
    }
  }

  // ---------- The inner product that both forms compute ----------

  // The first m products of the reversed coefficients r with x from time s on.
  function Dot(r: seq<real>, x: seq<real>, s: int, m: nat): real
    requires m <= |r|
  {
    if m == 0 then 0.0 else Dot(r, x, s, m - 1) + At(x, s + m - 1) * r[m - 1]
  }

  ghost predicate Reversed(r: seq<real>, c: seq<real>) {
    |r| == |c| && forall j :: 0 <= j < |r| ==> r[j] == c[|c| - 1 - j]
  }

  /** Reading a window forwards with reversed coefficients is convolution. */
  lemma {:induction false} DotIsConv(r: seq<real>, c: seq<real>, x: seq<real>, t: int, m: nat)
    requires Reversed(r, c) && m <= |c|
    ensures Dot(r, x, t - |c| + 1, m) == ConvFrom(c, x, t, |c| - m)
  {
    if m > 0 {
      DotIsConv(r, c, x, t, m - 1);
    }
  }

  // `state` holds the samples of x just before its end.
  ghost predicate Holds(state: seq<real>, x: seq<real>, n: nat) {
    n <= |state| && forall q :: 0 <= q < n ==> state[q] == At(x, |x| - n + q)
  }

  // The window of n samples before the end of a longer signal.
  lemma WindowMoves(x: seq<real>, y: seq<real>, n: nat, q: nat)
    requires q < n
    ensures At(x + y, |x + y| - n + q) ==
            if q + |y| >= n then y[q + |y| - n] else At(x, |x| - n + q + |y|)
  {
  }

  // ---------- FIRFilterC ----------

  class FirFilterC {
    const coefficients_length: nat
    const state_length: nat
    const coefficients: array<real>
    const state: array<real>
    ghost const c: seq<real>      // the coefficients as given
    ghost var history: seq<real>  // all samples so far

    ghost predicate Valid()
      reads this, coefficients, state
    {
      && coefficients_length > 0 && state_length == coefficients_length - 1
      && coefficients != state
      && coefficients.Length == coefficients_length && state.Length == state_length
      && Reversed(coefficients[..], c)
      && Holds(state[..], history, state_length)
    }

    constructor (coefs: array<real>)
      requires coefs.Length > 0
      ensures Valid() && c == coefs[..] && history == []
      ensures fresh(coefficients) && fresh(state)
    {
      var n := coefs.Length;
      coefficients_length := n;
      state_length := n - 1;
      coefficients := new real[n](i reads coefs => if 0 <= i < coefs.Length then coefs[coefs.Length - i - 1] else 0.0);
      state := new real[n - 1](_ => 0.0);
      c := coefs[..];
      history := [];
    }

    /** FIRFilterC::Filter: one output per sample of the chunk, each the convolution of
        everything heard so far, however it was cut into chunks. */
    method Filter(input: array<real>, length: nat, out: array<real>)
      requires Valid() && 0 < length <= input.Length && length <= out.Length
      requires out != input && out != coefficients && out != state && input != state
      modifies `history, state, out
      ensures Valid() && history == old(history) + input[..length]
      ensures forall i :: 0 <= i < length ==> out[i] == Conv(c, history, |old(history)| + i)
      ensures out[length..] == old(out[length..])
    {
      for i := 0 to length
        modifies out
        invariant forall q :: 0 <= q < i ==> out[q] == Conv(c, history + input[..length], |history| + q)
        invariant out[length..] == old(out[length..])
      {
        label L:
        Row(input, length, i, out);
        assert out[length..] == out[..][length..] && old@L(out[length..]) == old@L(out[..])[length..];
      }
      UpdateState(input, length);
    }

    // The body of the outer loop: out[i] gathers the products with the state, then those
    // with the chunk.
    method Row(input: array<real>, length: nat, i: nat, out: array<real>)
      requires Valid() && i < length <= input.Length && length <= out.Length
      requires out != input && out != coefficients && out != state
      modifies out
      ensures out[..] == old(out[..])[i := Conv(c, history + input[..length], |history| + i)]
    {
      ghost var x, r := history + input[..length], coefficients[..];
      ghost var s := |history| + i - state_length;
      out[i] := 0.0;
      var j := 0;
      while state_length > i && j < state_length - i
        invariant 0 <= j <= coefficients_length && (j > 0 ==> j <= state_length - i)
        invariant out[..] == old(out[..])[i := Dot(r, x, s, j)]
      {
        assert At(x, s + j) == state[..][i + j] && r[j] == coefficients[j];
        assert Dot(r, x, s, j + 1) == out[..][i] + state[i + j] * coefficients[j];
        out[i] := out[i] + state[i + j] * coefficients[j];
        j := j + 1;
      }
      while j < coefficients_length
        invariant state_length - i <= j <= coefficients_length && 0 <= j
        invariant out[..] == old(out[..])[i := Dot(r, x, s, j)]
      {
        assert At(x, s + j) == input[j + i - state_length] && r[j] == coefficients[j];
        assert Dot(r, x, s, j + 1) == out[..][i] + input[j + i - state_length] * coefficients[j];
        out[i] := out[i] + input[j + i - state_length] * coefficients[j];
        j := j + 1;
      }
      DotIsConv(r, c, x, |history| + i, |c|);
    }

    // The samples that the next chunk will look back at.
    method UpdateState(input: array<real>, length: nat)
      requires Valid() && 0 < length <= input.Length && input != state
      modifies `history, state
      ensures Valid() && history == old(history) + input[..length]
    {
      ghost var before := history;
      history := history + input[..length];
      if length >= state_length {
        forall q | 0 <= q < state_length {
          state[q] := input[length - state_length + q];
        }
      } else {
        forall q | 0 <= q < state_length - length {
          state[q] := state[length + q];
        }
        forall q | 0 <= q < length {
          state[state_length - length + q] := input[q];
        }
      }
      forall q | 0 <= q < state_length ensures state[q] == At(history, |history| - state_length + q) {
        WindowMoves(before, input[..length], state_length, q);
      }
    }
  }

  // ---------- FIRFilterAVX2 ----------

  function RoundUp8(n: nat): (m: nat)
    ensures m % 8 == 0 && n <= m < n + 8
  {
    n + 7 - (n + 7) % 8
  }

  function Zeros(n: nat): (z: seq<real>)
    ensures |z| == n && forall i :: 0 <= i < n ==> z[i] == 0.0
  {
    seq(n, _ => 0.0)
  }

  // The accumulators m_sum, one per lane of the 256-bit register.
  type Lanes = m: seq<real> | |m| == 8 witness Zeros(8)

  function LaneSum(m: Lanes): real {
    m[0] + m[1] + m[2] + m[3] + m[4] + m[5] + m[6] + m[7]
  }

  /** The final additions across the register: halves, then pairs, then the last two. */
  function HorizontalSum(m: Lanes): (sum: real)
    ensures sum == LaneSum(m)
  {
    var m128 := [m[0] + m[4], m[1] + m[5], m[2] + m[6], m[3] + m[7]];
    var pairs := [m128[2] + m128[0], m128[3] + m128[1]];
    pairs[0] + pairs[1]
  }

  // _mm256_fmadd_ps.
  function Fmadd(a: Lanes, b: Lanes, m: Lanes): (r: Lanes)
    ensures forall l :: 0 <= l < 8 ==> r[l] == a[l] * b[l] + m[l]
  {
    seq(8, l requires 0 <= l < 8 => a[l] * b[l] + m[l])
  }

  lemma DotStep8(r: seq<real>, x: seq<real>, s: int, j: nat, a: Lanes, b: Lanes, m: Lanes)
    requires j + 8 <= |r|
    requires forall l :: 0 <= l < 8 ==> a[l] == At(x, s + j + l) && b[l] == r[j + l]
    requires LaneSum(m) == Dot(r, x, s, j)
    ensures LaneSum(Fmadd(a, b, m)) == Dot(r, x, s, j + 8)
  {
    assert Dot(r, x, s, j + 1) == Dot(r, x, s, j) + a[0] * b[0];
    assert Dot(r, x, s, j + 2) == Dot(r, x, s, j + 1) + a[1] * b[1];
    assert Dot(r, x, s, j + 3) == Dot(r, x, s, j + 2) + a[2] * b[2];
    assert Dot(r, x, s, j + 4) == Dot(r, x, s, j + 3) + a[3] * b[3];
    assert Dot(r, x, s, j + 5) == Dot(r, x, s, j + 4) + a[4] * b[4];
    assert Dot(r, x, s, j + 6) == Dot(r, x, s, j + 5) + a[5] * b[5];
    assert Dot(r, x, s, j + 7) == Dot(r, x, s, j + 6) + a[6] * b[6];
    assert Dot(r, x, s, j + 8) == Dot(r, x, s, j + 7) + a[7] * b[7];
  }

  class FirFilterAvx2 {
    const coefficients_length: nat
    const state_length: nat
    const max_input_length: nat
    const coefficients: array<real>
    const state: array<real>
    ghost const c: seq<real>
    ghost var history: seq<real>

    ghost predicate Valid()
      reads this, coefficients, state
    {
      && Shaped()
      && Holds(state[..], history, state_length)
    }

    constructor (coefs: array<real>, max_input_length: nat)
      requires coefs.Length > 0
      ensures Valid() && c == coefs[..] && history == [] && this.max_input_length == max_input_length
      ensures fresh(coefficients) && fresh(state)
    {
      var n := coefs.Length;
      var m := RoundUp8(n);
      var padding := m - n;
      coefficients_length := m;
      state_length := m - 1;
      this.max_input_length := max_input_length;
      coefficients := new real[m](i reads coefs =>
        if padding <= i < coefs.Length + padding then coefs[coefs.Length - (i - padding) - 1] else 0.0);
      state := new real[max_input_length + m - 1](_ => 0.0);
      c := coefs[..];
      history := [];
    }

    /** FIRFilterAVX2::Filter: the same outputs, from one buffer that continues the state; out
        may be the input. */
    method Filter(input: array<real>, length: nat, out: array<real>)
      requires Valid() && 0 < length <= input.Length && length <= out.Length
      requires length <= max_input_length
      requires out != coefficients && out != state && input != state
      modifies `history, state, out
      ensures Valid() && history == old(history + input[..length])
      ensures forall i :: 0 <= i < length ==> out[i] == Conv(c, history, |old(history)| + i)
      ensures out[length..] == old(out[length..])
    {
      ghost var x := history + input[..length];
      FillBuffer(input, length);
      for i := 0 to length
        modifies out
        invariant forall q :: 0 <= q < i ==> out[q] == Conv(c, x, |history| + q)
        invariant out[length..] == old(out[length..])
      {
        label Row:
        out[i] := Output(x, i, length);
        assert out[length..] == out[..][length..] && old@Row(out[length..]) == old@Row(out[..])[length..];
      }
      ShiftBuffer(x, length);
    }

    ghost predicate Shaped()
      reads coefficients
    {
      && |c| > 0 && coefficients_length == RoundUp8(|c|) && state_length == coefficients_length - 1
      && coefficients != state
      && coefficients.Length == coefficients_length
      && state.Length == max_input_length + state_length
      && Reversed(coefficients[..], c + Zeros(coefficients_length - |c|))
    }

    // The buffer holds the n samples of x from `state_length` before `since` on.
    ghost predicate Buffers(x: seq<real>, since: nat, n: nat)
      requires n <= state.Length
      reads state
    {
      forall q :: 0 <= q < n ==> state[q] == At(x, since - state_length + q)
    }

    // The memcpy of the chunk behind the state.
    method FillBuffer(input: array<real>, length: nat)
      requires Valid() && length <= input.Length && length <= max_input_length && input != state
      modifies state
      ensures Shaped() && Buffers(history + input[..length], |history|, state_length + length)
    {
      forall q | 0 <= q < length {
        state[state_length + q] := input[q];
      }
    }

    // The memmove that makes the end of the chunk the new state.
    method ShiftBuffer(ghost x: seq<real>, length: nat)
      requires Shaped() && length <= max_input_length
      requires |x| == |history| + length && Buffers(x, |history|, state_length + length)
      modifies `history, state
      ensures Valid() && history == x
    {
      forall q | 0 <= q < state_length {
        state[q] := state[length + q];
      }
      history := x;
    }

    // The two loops over j differ only in how they load from memory.
    method Output(ghost x: seq<real>, i: nat, ghost length: nat) returns (y: real)
      requires Shaped() && i < length <= max_input_length
      requires Buffers(x, |history|, state_length + length)
      ensures y == Conv(c, x, |history| + i)
    {
      ghost var r := coefficients[..];
      ghost var s := |history| - state_length + i;
      var m_sum: Lanes := Zeros(8);
      var j := 0;
      while j < coefficients_length
        invariant 0 <= j <= coefficients_length && j % 8 == 0
        invariant LaneSum(m_sum) == Dot(r, x, s, j)
      {
        var m_in := state[i + j..i + j + 8];
        DotStep8(r, x, s, j, m_in, coefficients[j..j + 8], m_sum);
        m_sum := Fmadd(m_in, coefficients[j..j + 8], m_sum);
        j := j + 8;
      }
      y := HorizontalSum(m_sum);
      ghost var zeros := Zeros(coefficients_length - |c|);
      DotIsConv(r, c + zeros, x, |history| + i, |c + zeros|);
      ConvPadded(c, zeros, x, |history| + i, 0);
    }
  }

  // ---------- Streams ----------

  function Concat(chunks: seq<seq<real>>): seq<real> {
    if chunks == [] then [] else Concat(chunks[..|chunks| - 1]) + chunks[|chunks| - 1]
  }

  // Outputs for a longer and longer signal only grow.
  lemma ConvAllGrows(c: seq<real>, x: seq<real>, y: seq<real>)
    ensures ConvAll(c, x + y)[..|x|] == ConvAll(c, x)
  {
    forall t | 0 <= t < |x| ensures Conv(c, x + y, t) == Conv(c, x, t) {
      ConvCausal(c, x, y, t, 0);
    }
  }

  lemma AppendOutputs(c: seq<real>, x: seq<real>, y: seq<real>, out: seq<real>)
    requires |out| == |y| && forall i :: 0 <= i < |y| ==> out[i] == Conv(c, x + y, |x| + i)
    ensures ConvAll(c, x) + out == ConvAll(c, x + y)
  {
    ConvAllGrows(c, x, y);
    var all := ConvAll(c, x + y);
    assert all == all[..|x|] + all[|x|..];
  }

  /** Both filters, fresh and with the same coefficients, are fed the same chunks: however
      the signal was cut, both produce its convolution, and so the same outputs. */
  method FilterBoth(coefs: array<real>, max_input_length: nat, chunks: seq<seq<real>>)
    returns (direct: seq<real>, lanes: seq<real>)
    requires coefs.Length > 0
    requires forall chunk :: chunk in chunks ==> 0 < |chunk| <= max_input_length
    ensures direct == ConvAll(coefs[..], Concat(chunks))
    ensures lanes == ConvAll(coefs[..], Concat(chunks))
  {
    var plain := new FirFilterC(coefs);
    var fast := new FirFilterAvx2(coefs, max_input_length);
    direct, lanes := [], [];
    for k := 0 to |chunks|
      invariant plain.Valid() && fast.Valid()
      invariant fresh(plain) && fresh(plain.state) && fresh(plain.coefficients)
      invariant fresh(fast) && fresh(fast.state) && fresh(fast.coefficients)
      invariant plain.state != fast.state && plain.state != fast.coefficients && fast.state != plain.coefficients
      invariant plain.history == Concat(chunks[..k]) && fast.history == Concat(chunks[..k])
      invariant direct == ConvAll(coefs[..], Concat(chunks[..k]))
      invariant lanes == ConvAll(coefs[..], Concat(chunks[..k]))
    {
      var chunk := chunks[k];
      assert chunk in chunks;
      assert chunks[..k + 1][..k] == chunks[..k];
      var out := FilterChunkC(plain, chunk);
      AppendOutputs(coefs[..], Concat(chunks[..k]), chunk, out);
      direct := direct + out;
      out := FilterChunkAvx2(fast, chunk);
      AppendOutputs(coefs[..], Concat(chunks[..k]), chunk, out);
      lanes := lanes + out;
    }
    assert chunks[..|chunks|] == chunks;
  }

  method FilterChunkC(filter: FirFilterC, chunk: seq<real>) returns (out: seq<real>)
    requires filter.Valid() && |chunk| > 0
    modifies filter`history, filter.state
    ensures filter.Valid() && filter.history == old(filter.history) + chunk
    ensures |out| == |chunk| && forall i :: 0 <= i < |chunk| ==> out[i] == Conv(filter.c, filter.history, |old(filter.history)| + i)
  {
    var input := new real[|chunk|](i requires 0 <= i < |chunk| => chunk[i]);
    var output := new real[|chunk|](_ => 0.0);
    assert input[..|chunk|] == chunk;
    filter.Filter(input, |chunk|, output);
    out := output[..];
  }

  method FilterChunkAvx2(filter: FirFilterAvx2, chunk: seq<real>) returns (out: seq<real>)
    requires filter.Valid() && 0 < |chunk| <= filter.max_input_length
    modifies filter`history, filter.state
    ensures filter.Valid() && filter.history == old(filter.history) + chunk
    ensures |out| == |chunk| && forall i :: 0 <= i < |chunk| ==> out[i] == Conv(filter.c, filter.history, |old(filter.history)| + i)
  {
    var input := new real[|chunk|](i requires 0 <= i < |chunk| => chunk[i]);
    var output := new real[|chunk|](_ => 0.0);
    assert input[..|chunk|] == chunk;
    filter.Filter(input, |chunk|, output);
    out := output[..];
  }
}
