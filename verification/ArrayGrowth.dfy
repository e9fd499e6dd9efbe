/** array_nextsize: how the growable arrays of the event loop choose their next capacity. */
module ArrayGrowth {

  const MALLOC_ROUND := 4096
  const OVERHEAD := 32   // sizeof(void*) * 4

  /** The doubling loop from n on: the first n * 2^k that is not below cnt. */
  function Doubled(n: nat, cnt: int): (r: nat)
    requires n > 0
    ensures r >= n && r >= cnt
    ensures r == n || r < 2 * cnt
    decreases cnt - n
  {
    if cnt > n then Doubled(2 * n, cnt) else n
  }

  // bytes are `elems` elements of size elem, plus malloc's overhead, and fill whole chunks
  // but for less than one element.
  ghost predicate FillsChunks(elem: nat, elems: nat) {
    exists chunks: nat :: elem * elems + OVERHEAD <= MALLOC_ROUND * chunks < elem * elems + OVERHEAD + elem
  }

  method NextSize(elem: nat, cur: nat, cnt: int) returns (size: nat)
    requires elem > 0
    ensures size >= cnt && size >= 2 * (cur + 1)
    ensures var doubled := Doubled(2 * (cur + 1), cnt);
            if elem * doubled > MALLOC_ROUND - OVERHEAD then size > doubled && FillsChunks(elem, size)
            else size == doubled
  {
    var ncur := cur + 1;
    while true
      invariant ncur > 0
      invariant ncur == cur + 1 || cnt > ncur
      invariant Doubled(2 * (cur + 1), cnt) == Doubled(2 * ncur, cnt)
      invariant ncur >= cur + 1
      decreases cnt - ncur
    {
      ncur := ncur * 2;
      if cnt <= ncur {
        break;
      }
    }
    size := ncur;
    if elem * ncur > MALLOC_ROUND - OVERHEAD {
      var bytes := ncur * elem;
      bytes := bytes + elem + (MALLOC_ROUND - 1) + OVERHEAD;
      bytes := bytes - bytes % MALLOC_ROUND;
      size := Rounded(elem, ncur, bytes);
    }
  }

  // The end of the rounding branch: as many elements as fit in whole chunks.
  method Rounded(elem: nat, ncur: nat, bytes: nat) returns (size: nat)
    requires elem > 0 && bytes % MALLOC_ROUND == 0
    requires bytes - OVERHEAD >= elem * ncur + elem
    ensures size > ncur && FillsChunks(elem, size)
  {
    size := (bytes - OVERHEAD) / elem;
    DivideElements(elem, bytes - OVERHEAD, size, ncur);
    assert elem * size + OVERHEAD <= MALLOC_ROUND * (bytes / MALLOC_ROUND) < elem * size + OVERHEAD + elem;
  }

  lemma DivideElements(elem: nat, bytes: nat, size: nat, ncur: nat)
    requires elem > 0 && size == bytes / elem
    requires bytes >= elem * ncur + elem
    ensures elem * size <= bytes < elem * size + elem
    ensures size > ncur
  {
    assert bytes == elem * size + bytes % elem;
    assert size <= ncur ==> elem * size <= elem * ncur;
  }
}
