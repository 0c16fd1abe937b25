/** The algebra behind the law of the inflation, with every product under a name of its own. */
module InflationAlgebra {
  import opened Reals

  // ---- the exponent: t is the excess over the falloff, a the accuracy

  lemma QuotientBetween(d: real, a: real, parts: real, y: real, c: real, pa: real, ya: real)
    requires 0.0 < a && parts <= y <= parts + 1.0 && pa == parts * a && ya == y * a && c <= pa <= c + d
    ensures c <= ya <= c + d + a
  {
    NamedMono(parts, y, a, pa, ya);
    var more := (parts + 1.0) * a;
    NamedMono(y, parts + 1.0, a, ya, more);
    NamedSum(parts, 1.0, a, pa, a, more);
  }

  lemma ThreeParts(t: real, x: real, y: real, z: real, tx: real, ty: real, tz: real, sum: real)
    requires tx == x * t && ty == y * t && tz == z * t && sum == (x + y + z) * t
    ensures sum == tx + ty + tz
  {
    var xy := (x + y) * t;
    NamedSum(x, y, t, tx, ty, xy);
    NamedSum(x + y, z, t, xy, tz, sum);
  }

  lemma TimesBetween(t: real, e: real, d: real, a: real, c: real, ya: real, tc: real, tya: real, ta: real)
    requires 0.0 <= t && e == t * d && c <= ya <= c + d + a && tc == c * t && tya == ya * t && ta == a * t
    ensures tc <= tya <= tc + e + ta
  {
    NamedMono(c, ya, t, tc, tya);
    var most := (c + d + a) * t;
    NamedMono(ya, c + d + a, t, tya, most);
    ThreeParts(t, c, d, a, tc, e, ta, most);
  }

  lemma Values(t: real, e: real, d: real, a: real, q: real, v: real, c: real, y: real, ya: real, u: real, va: real,
               ua: real, tc: real, tya: real)
    requires va == v * a && va == e * q && e == t * d && c == q * d && tc == c * t
    requires u == y * t && ya == y * a && ua == u * a && tya == ya * t
    ensures va == tc && ua == tya
  {
    NamedSwap(d, t, q, e, c, va, tc);
    NamedSwap(y, t, a, u, ya, ua, tya);
  }

  lemma ValuesApart(t: real, e: real, a: real, u: real, v: real, va: real, ua: real, ta: real)
    requires 0.0 < a && e <= a && va == v * a && ua == u * a && ta == a * t && va <= ua <= va + e + ta
    ensures v <= u <= v + t + 1.0
  {
    NamedCancel(v, u, a, va, ua);
    var most := (v + t + 1.0) * a;
    ThreeParts(a, v, t, 1.0, va, ta, a, most);
    NamedCancel(u, v + t + 1.0, a, ua, most);
  }

  lemma SourceBy(t: real, e: real, d: real, a: real, parts: real, q: real, v: real, y: real)
    requires 0.0 <= t && e == t * d && e <= a && 0.0 < a && parts <= y <= parts + 1.0
    requires q * d <= parts * a <= q * d + d && v * a == e * q
    ensures v <= y * t <= v + t + 1.0
  {
    var c, pa, ya, va, u, ta := q * d, parts * a, y * a, v * a, y * t, a * t;
    var ua, tc, tya := u * a, c * t, ya * t;
    QuotientBetween(d, a, parts, y, c, pa, ya);
    TimesBetween(t, e, d, a, c, ya, tc, tya, ta);
    Values(t, e, d, a, q, v, c, y, ya, u, va, ua, tc, tya);
    ValuesApart(t, e, a, u, v, va, ua, ta);
  }

  lemma Unscaled(t: real, a: real, z: real, ln2: real, v: real, u: real, exact: real, short: real)
    requires 0.0 < a && v == z * a && u == (ln2 * a) * t && v <= u <= v + t + 1.0 && exact == ln2 * t
    requires short == (exact - z) * a
    ensures z <= exact && short <= t + 1.0
  {
    var y, ea := ln2 * a, exact * a;
    NamedSwap(ln2, t, a, exact, y, ea, u);
    NamedSum(exact - z, z, a, short, v, ea);
    NamedCancel(z, exact, a, v, ea);
  }

  // ---- no less than the power: r is the result, p/q the power, x the exponential

  lemma LowerExponent(t: real, z: real, ln2: real, l: real, h: real, s: real, exact: real, tl: real, ts: real)
    requires 0.0 <= t && exact == ln2 * t && tl == l * t && ts == s * t && z <= exact && ln2 <= l + s
    requires tl <= h + 2.0 * s
    ensures z <= h + 2.0 * s + ts
  {
    var more := (l + s) * t;
    NamedMono(ln2, l + s, t, exact, more);
    NamedSum(l, s, t, tl, ts, more);
  }

  lemma DivideBelow(t: real, e: real, d: real, l: real, h: real, s: real, tl: real, el: real, dh: real, ds: real)
    requires e == t * d && tl == l * t && 0.0 < d && el == e * l && dh == h * d && ds == s * d && el <= dh + 2.0 * ds
    ensures tl <= h + 2.0 * s
  {
    var left, right := tl * d, (h + 2.0 * s) * d;
    NamedSwap(t, l, d, tl, e, left, el);
    ThreeParts(d, h, s, s, dh, ds, ds, right);
    NamedCancel(tl, h + 2.0 * s, d, left, right);
  }

  lemma ScaledLower(r: real, a: real, x: real, part: real, rx: real, v: real, ar: real, rv: real)
    requires a <= rx + 149.0 * x + 0.75 && 0.0 <= part <= 1.0 && rx == x * r && v == x * part && ar == a * part
    requires rv == v * r
    ensures ar <= rv + 149.0 * v + 0.75
  {
    var big, rxp := (rx + 149.0 * x + 0.75) * part, rx * part;
    NamedMono(a, rx + 149.0 * x + 0.75, part, ar, big);
    ThreeParts(part, rx, 149.0 * x, 0.75, rxp, 149.0 * v, 0.75 * part, big);
    NamedSwap(x, r, part, rx, v, rxp, rv);
  }

  lemma LowerScaled(r: real, p: real, q: real, v: real, ar: real, rv: real, vp: real, arp: real, qr: real)
    requires ar <= rv + 149.0 * v + 0.75 && 0.0 <= r && 0.0 < p <= q && vp <= q
    requires rv == v * r && vp == v * p && arp == ar * p && qr == q * r
    ensures arp <= qr + 150.0 * q
  {
    var big, rvp, vpr := (rv + 149.0 * v + 0.75) * p, rv * p, vp * r;
    NamedMono(ar, rv + 149.0 * v + 0.75, p, arp, big);
    ThreeParts(p, rv, 149.0 * v, 0.75, rvp, 149.0 * vp, 0.75 * p, big);
    NamedSwap(v, r, p, rv, vp, rvp, vpr);
    NamedMono(vp, q, r, vpr, qr);
  }

  lemma LowerResult(r: real, a: real, p: real, q: real, x: real, eta: real, ap: real, etaAp: real, vp: real, left: real)
    requires a <= x * r + 149.0 * x + 0.75 && 0.0 <= r && 0.0 < p <= q && 1.0 <= q && 0.0 <= eta <= 1.0
    requires vp == (x * (1.0 - eta)) * p && vp <= q && ap == a * p && etaAp == eta * ap && etaAp <= 1.0
    requires left == (r + 151.0) * q
    ensures ap <= left
  {
    var part := 1.0 - eta;
    var rx, v, ar, qr := x * r, x * part, a * part, q * r;
    var rv, arp, app := v * r, ar * p, ap * part;
    ScaledLower(r, a, x, part, rx, v, ar, rv);
    LowerScaled(r, p, q, v, ar, rv, vp, arp, qr);
    NamedSwap(a, part, p, ar, ap, arp, app);
    NamedSum(part, eta, ap, app, etaAp, ap);
    NamedSum(r, 151.0, q, qr, 151.0 * q, left);
  }

  // ---- no more than the power

  lemma DivideAbove(t: real, e: real, d: real, l: real, h: real, w: real, tl: real, el: real, dh: real)
    requires e == t * d && tl == l * t && 1.0 <= d && el == e * l && dh == h * d && dh <= el + w && 0.0 <= w
    ensures h <= tl + w
  {
    var left, right, wd := tl * d, (tl + w) * d, w * d;
    NamedSwap(t, l, d, tl, e, left, el);
    NamedSum(tl, w, d, left, wd, right);
    NamedMono(1.0, d, w, w, wd);
    NamedCancel(h, tl + w, d, dh, right);
  }

  lemma UpperExponent(t: real, z: real, ln2: real, l: real, h: real, w: real, a: real, unit: real, exact: real,
                      tl: real,
                      short: real, wa: real, sigma: real)
    requires 0.0 <= t && 0.0 < a && h <= tl + w && l <= ln2 + unit && a * unit <= 1.0
    requires exact == ln2 * t && tl == l * t && short == (exact - z) * a && wa == w * a && sigma == (h - z) * a
    requires short <= t + 1.0 && wa <= 0.25
    ensures sigma <= 2.0 * t + 1.25
  {
    var more, ut := (ln2 + unit) * t, unit * t;
    NamedMono(l, ln2 + unit, t, tl, more);
    NamedSum(ln2, unit, t, exact, ut, more);
    var sum, uta, ua := ((exact - z) + ut + w) * a, ut * a, unit * a;
    NamedMono(h - z, (exact - z) + ut + w, a, sigma, sum);
    ThreeParts(a, exact - z, ut, w, short, uta, wa, sum);
    var uat := ua * t;
    NamedSwap(unit, t, a, ut, ua, uta, uat);
    NamedMono(ua, 1.0, t, uat, t);
  }

  lemma AtLeastLinear(t: real, z: real, ln2: real, a: real, x: real, exact: real, short: real)
    requires 0.0 <= t && 0.69 <= ln2 && 100.0 <= a && exact == ln2 * t && short == (exact - z) * a && short <= t + 1.0
    requires 1.0 + z <= x
    ensures 2.0 * t + 2.0 <= 3.75 * x
  {
    NamedMono(0.69, ln2, t, 0.69 * t, exact);
    if 0.0 <= exact - z { NamedMono(100.0, a, exact - z, 100.0 * (exact - z), short); }
  }

  /** What the accuracy comes to. */
  lemma UpperLeft(a: real, p: real, q: real, x: real, delta: real, s: real, sigma: real, aq: real, ap: real, as': real,
                  xap: real, sigmaQ: real)
    requires (1.0 - delta) * q <= x * (p + s) && 0.0 < a && 0.0 <= x && as' <= 0.25
    requires sigma == delta * a && aq == a * q && ap == p * a && as' == s * a && xap == ap * x && sigmaQ == sigma * q
    ensures aq <= xap + 0.25 * x + sigmaQ
  {
    var left, right := (1.0 - delta) * q, (p + s) * x;
    var la, ra := left * a, right * a;
    NamedMono(left, right, a, la, ra);
    var dq, psa := delta * q, (p + s) * a;
    NamedSum(1.0 - delta, delta, q, left, dq, q);
    NamedSum(left, dq, a, la, dq * a, aq);
    NamedSwap(delta, q, a, dq, sigma, dq * a, sigmaQ);
    NamedSwap(p + s, x, a, right, psa, ra, psa * x);
    NamedSum(p, s, a, ap, as', psa);
    NamedSum(ap, as', x, xap, as' * x, psa * x);
    NamedMono(as', 0.25, x, as' * x, 0.25 * x);
  }

  /** What the result comes to, times the exponential. */
  lemma UpperRight(r: real, a: real, q: real, x: real, aq: real, rq: real, xq: real, rqx: real)
    requires r * x <= a + 150.0 * x + 0.75 && 0.0 <= q && aq == a * q && rq == r * q && xq == x * q && rqx == rq * x
    ensures rqx <= aq + 150.0 * xq + 0.75 * q
  {
    var rx := r * x;
    var rxq, big := rx * q, (a + 150.0 * x + 0.75) * q;
    NamedMono(rx, a + 150.0 * x + 0.75, q, rxq, big);
    ThreeParts(q, a, 150.0 * x, 0.75, aq, 150.0 * xq, 0.75 * q, big);
    NamedSwap(r, q, x, rq, rx, rqx, rxq);
  }

  lemma Missing(q: real, x: real, t: real, sigma: real, sigmaQ: real, xq: real)
    requires 1.0 <= q && 0.0 <= x && sigma <= 2.0 * t + 1.25 && 2.0 * t + 2.0 <= 3.75 * x
    requires sigmaQ == sigma * q && xq == x * q
    ensures sigmaQ + 0.75 * q <= 3.75 * xq && x <= xq
  {
    var mq, all := (2.0 * t + 1.25) * q, (2.0 * t + 2.0) * q;
    NamedMono(sigma, 2.0 * t + 1.25, q, sigmaQ, mq);
    NamedMono(2.0 * t + 2.0, 3.75 * x, q, all, 3.75 * xq);
    NamedSum(2.0 * t + 1.25, 0.75, q, mq, 0.75 * q, all);
    NamedMono(1.0, q, x, x, xq);
  }

  lemma UpperResult(r: real, a: real, q: real, x: real, t: real, sigma: real, aq: real, ap: real, xap: real,
                    sigmaQ: real, rq: real)
    requires r * x <= a + 150.0 * x + 0.75 && 1.0 <= q && 1.0 <= x && sigma <= 2.0 * t + 1.25
    requires 2.0 * t + 2.0 <= 3.75 * x
    requires aq == a * q && xap == ap * x && sigmaQ == sigma * q && rq == r * q && aq <= xap + 0.25 * x + sigmaQ
    ensures rq <= ap + 154.0 * q
  {
    var xq, rqx, right := x * q, rq * x, (ap + 154.0 * q) * x;
    UpperRight(r, a, q, x, aq, rq, xq, rqx);
    Missing(q, x, t, sigma, sigmaQ, xq);
    NamedSum(ap, 154.0 * q, x, xap, 154.0 * xq, right);
    NamedCancel(rq, ap + 154.0 * q, x, rqx, right);
  }
}
