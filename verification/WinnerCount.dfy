/** How many candidates a selection draw picks. */
module WinnerCount {

  const BASIS: nat := 10000

  function Min(a: nat, b: nat): nat {
    if a < b then a else b
  }

  function Max(a: nat, b: nat): nat {
    if a < b then b else a
  }

  /** One winner of one candidate; of more, the rate's share, at least one, within both caps and at
      most half of the candidates. */
  function WinnersOf(candidates: nat, rateBps: nat, maxSelected: nat, maxPerSelection: nat): nat {
    if candidates <= 1 then candidates
    else Min(Min(Min(Max(1, candidates * rateBps / BASIS), maxSelected), maxPerSelection), candidates / 2)
  }

  /** Splitting off whole ten-thousands first gives the same share, exactly. */
  lemma SplitShareIsExact(c: nat, rate: nat)
    ensures c / BASIS * rate + c % BASIS * rate / BASIS == c * rate / BASIS
  {
    var q, r := c / BASIS, c % BASIS;
    assert c == q * BASIS + r;
    assert c * rate == (q * rate) * BASIS + r * rate by {
      Distributes(q, r, rate);
    }
    QuotientOfSum(q * rate, r * rate);
  }

  lemma Distributes(q: nat, r: nat, rate: nat)
    ensures (q * 10000 + r) * rate == (q * rate) * 10000 + r * rate
  {
  }

  lemma QuotientOfSum(whole: nat, part: nat)
    ensures (whole * BASIS + part) / BASIS == whole + part / BASIS
  {
  }

  method CountWinners(c: nat, rateBps: nat, maxSel: nat, maxPerSel: nat) returns (k: nat)
    ensures k == WinnersOf(c, rateBps, maxSel, maxPerSel)
  {
    if c == 0 {
      return 0;
    }
    if c == 1 {
      return 1;
    }
    var rateK := c / BASIS * rateBps + c % BASIS * rateBps / BASIS;
    SplitShareIsExact(c, rateBps);
    k := if rateK < 1 then 1 else rateK;
    ghost var share := k;
    var caps := [maxSel, maxPerSel, c / 2];
    for i := 0 to |caps|
      invariant k == if i == 0 then share
                     else if i == 1 then Min(share, caps[0])
                     else if i == 2 then Min(Min(share, caps[0]), caps[1])
                     else Min(Min(Min(share, caps[0]), caps[1]), caps[2])
    {
      if caps[i] < k {
        k := caps[i];
      }
    }
  }

  lemma ShareIsMonotone(a: nat, b: nat, rate: nat)
    requires a <= b
    ensures a * rate / BASIS <= b * rate / BASIS
  {
    assert b * rate == a * rate + (b - a) * rate;
    assert (b - a) * rate >= 0;
  }

  /** Some candidate is drawn, never more than half of them, and never more than a cap allows. */
  lemma WinnersAreBounded(c: nat, rate: nat, maxSel: nat, maxPerSel: nat)
    requires c >= 2 && maxSel >= 1 && maxPerSel >= 1
    ensures var k := WinnersOf(c, rate, maxSel, maxPerSel);
            1 <= k <= c / 2 && k <= maxSel && k <= maxPerSel
  {
  }

  /** More candidates never mean fewer winners. */
  lemma WinnersAreMonotone(a: nat, b: nat, rate: nat, maxSel: nat, maxPerSel: nat)
    requires a <= b && maxSel >= 1 && maxPerSel >= 1
    ensures WinnersOf(a, rate, maxSel, maxPerSel) <= WinnersOf(b, rate, maxSel, maxPerSel)
  {
    ShareIsMonotone(a, b, rate);
  }

  lemma ProductGrows(c: nat, a: nat, b: nat)
    requires a <= b
    ensures c * a <= c * b
  {
    assert c * b == c * a + c * (b - a);
  }

  lemma QuotientGrows(a: nat, b: nat)
    requires a <= b
    ensures a / BASIS <= b / BASIS
  {
  }

  lemma HalfShare(c: nat)
    ensures c * 5000 / BASIS == c / 2
  {
  }

  /** Up to a rate of one half the half cap never lowers what the rate gives. */
  lemma HalfCapDoesNotBind(c: nat, rate: nat, maxSel: nat, maxPerSel: nat)
    requires c >= 2 && rate <= BASIS / 2
    ensures WinnersOf(c, rate, maxSel, maxPerSel) == Min(Min(Max(1, c * rate / BASIS), maxSel), maxPerSel)
  {
    ProductGrows(c, rate, 5000);
    QuotientGrows(c * rate, c * 5000);
    HalfShare(c);
  }

  /** Above one half it does: at any such rate some number of candidates is cut down to its half. */
  lemma HalfCapBindsAboveOneHalf(rate: nat)
    requires rate > BASIS / 2
    ensures var c := 2 * BASIS; c / 2 < c * rate / BASIS && WinnersOf(c, rate, c, c) == c / 2
  {
    assert 2 * BASIS * rate / BASIS == 2 * rate;
  }

  /** So many winners are within both caps and half of the candidates and, from two on, within the rate's share. */
  predicate IsAllowed(k: nat, c: nat, rate: nat, maxSel: nat, maxPerSel: nat) {
    k <= maxSel && k <= maxPerSel && 2 * k <= c && (k >= 2 ==> 10000 * k <= c * rate)
  }

  lemma QuotientBounds(a: nat, k: nat)
    ensures k <= a / BASIS <==> 10000 * k <= a
  {
  }

  /** Of two or more candidates as many win as are allowed at most. */
  lemma WinnersAreTheMost(c: nat, rate: nat, maxSel: nat, maxPerSel: nat, k: nat)
    requires c >= 2
    ensures IsAllowed(WinnersOf(c, rate, maxSel, maxPerSel), c, rate, maxSel, maxPerSel)
    ensures IsAllowed(k, c, rate, maxSel, maxPerSel) ==> k <= WinnersOf(c, rate, maxSel, maxPerSel)
  {
    QuotientBounds(c * rate, k);
    QuotientBounds(c * rate, WinnersOf(c, rate, maxSel, maxPerSel));
  }

  /** One candidate wins, and none of none. */
  lemma FewWin(rate: nat, maxSel: nat, maxPerSel: nat)
    ensures WinnersOf(0, rate, maxSel, maxPerSel) == 0 && WinnersOf(1, rate, maxSel, maxPerSel) == 1
  {
  }
}
