/** Stored timestamps: RFC 3339 text with trailing zeros of the fraction
    dropped, compared as text by the lease queries. */
module Timestamps {
  import opened Text

  /** A UTC instant in the years a four-digit year can name. */
  datatype Instant = Instant(year: nat, month: nat, day: nat,
                             hour: nat, minute: nat, second: nat, nanos: nat)
  {
    predicate Valid()
    {
      && year <= 9999 && 1 <= month <= 12 && 1 <= day <= 31
      && hour <= 23 && minute <= 59 && second <= 59 && nanos < 1_000_000_000
    }

    function Fields(): (f: seq<nat>)
      ensures |f| == 6
    {
      [year, month, day, hour, minute, second]
    }

    predicate SameSecond(other: Instant)
    {
      Fields() == other.Fields()
    }
  }

  /** Chronological order of whole seconds, most significant field first. */
  predicate FieldsBefore(f: seq<nat>, g: seq<nat>)
    requires |f| == |g|
  {
    |f| > 0 && (f[0] < g[0] || (f[0] == g[0] && FieldsBefore(f[1..], g[1..])))
  }

  predicate Before(a: Instant, b: Instant)
  {
    FieldsBefore(a.Fields(), b.Fields()) || (a.SameSecond(b) && a.nanos < b.nanos)
  }

  function Digit(d: nat): char
    requires d < 10
  {
    "0123456789"[d]
  }

  /** n in exactly width decimal digits. */
  function Digits(width: nat, n: nat): (s: string)
    ensures |s| == width
    ensures forall i :: 0 <= i < width ==> '0' <= s[i] <= '9'
  {
    if width == 0 then "" else Digits(width - 1, n / 10) + [Digit(n % 10)]
  }

  function Pow10(width: nat): nat
  {
    if width == 0 then 1 else 10 * Pow10(width - 1)
  }

  function TrimZeros(s: string): (t: string)
    ensures |t| <= |s| && t == s[..|t|]
    ensures t != "" ==> t[|t| - 1] != '0'
    ensures forall i :: |t| <= i < |s| ==> s[i] == '0'
  {
    if s != "" && s[|s| - 1] == '0' then TrimZeros(s[..|s| - 1]) else s
  }

  /** The digits after the decimal point, without trailing zeros. */
  function Fraction(a: Instant): string
  {
    TrimZeros(Digits(9, a.nanos))
  }

  function Tail(fraction: string): string
  {
    (if fraction == "" then "" else "." + fraction) + "Z"
  }

  /** The text of time.RFC3339Nano for a UTC instant. */
  function Format(a: Instant): string
  {
    Digits(4, a.year) + ("-" + (Digits(2, a.month) + ("-" + (Digits(2, a.day) +
    ("T" + (Digits(2, a.hour) + (":" + (Digits(2, a.minute) +
    (":" + (Digits(2, a.second) + Tail(Fraction(a))))))))))))
  }

  predicate ProperPrefix(s: string, t: string)
  {
    |s| < |t| && s == t[..|s|]
  }

  lemma {:induction false} DigitsOrder(width: nat, m: nat, n: nat)
    requires m < Pow10(width) && n < Pow10(width)
    ensures Less(Digits(width, m), Digits(width, n)) <==> m < n
    ensures Digits(width, m) == Digits(width, n) <==> m == n
  {
    if width > 0 {
      var p, q := Digits(width - 1, m / 10), Digits(width - 1, n / 10);
      DigitsOrder(width - 1, m / 10, n / 10);
      LessOfHeads(p, [Digit(m % 10)], q, [Digit(n % 10)]);
      assert Digits(width, m)[..width - 1] == p && Digits(width, n)[..width - 1] == q;
      assert Digits(width, m)[width - 1] == Digit(m % 10) && Digits(width, n)[width - 1] == Digit(n % 10);
      DigitOrder(m % 10, n % 10);
    }
  }

  lemma DigitOrder(d: nat, e: nat)
    requires d < 10 && e < 10
    ensures Less([Digit(d)], [Digit(e)]) <==> d < e
    ensures Digit(d) == Digit(e) <==> d == e
  {
  }

  /** A fixed-width field decides unless both hold the same number. */
  lemma FieldDecides(width: nat, m: nat, s: string, n: nat, t: string)
    requires m < Pow10(width) && n < Pow10(width)
    ensures Less(Digits(width, m) + s, Digits(width, n) + t) <==> m < n || (m == n && Less(s, t))
  {
    LessOfHeads(Digits(width, m), s, Digits(width, n), t);
    DigitsOrder(width, m, n);
  }

  lemma SmallPowers()
    ensures Pow10(2) == 100 && Pow10(4) == 10_000 && Pow10(9) == 1_000_000_000
  {
  }

  lemma SeparatedField(separator: string, m: nat, s: string, n: nat, t: string)
    requires m < 100 && n < 100
    ensures Less(separator + (Digits(2, m) + s), separator + (Digits(2, n) + t)) <==> m < n || (m == n && Less(s, t))
  {
    LessAfter(separator, Digits(2, m) + s, Digits(2, n) + t);
    SmallPowers();
    FieldDecides(2, m, s, n, t);
  }

  function TimeText(a: Instant): string
  {
    "T" + (Digits(2, a.hour) + (":" + (Digits(2, a.minute) + (":" + (Digits(2, a.second) + Tail(Fraction(a)))))))
  }

  /** The smaller number comes first; between equal ones, the rest decides. */
  predicate First(m: nat, n: nat, rest: bool)
  {
    m < n || (m == n && rest)
  }

  lemma TimeOrder(a: Instant, b: Instant)
    requires a.Valid() && b.Valid()
    ensures Less(TimeText(a), TimeText(b)) <==>
            First(a.hour, b.hour, First(a.minute, b.minute,
              First(a.second, b.second, Less(Tail(Fraction(a)), Tail(Fraction(b))))))
  {
    var x, y := Tail(Fraction(a)), Tail(Fraction(b));
    SeparatedField(":", a.second, x, b.second, y);
    x, y := ":" + (Digits(2, a.second) + x), ":" + (Digits(2, b.second) + y);
    SeparatedField(":", a.minute, x, b.minute, y);
    x, y := ":" + (Digits(2, a.minute) + x), ":" + (Digits(2, b.minute) + y);
    SeparatedField("T", a.hour, x, b.hour, y);
  }

  lemma DateOrder(a: Instant, b: Instant)
    requires a.Valid() && b.Valid()
    ensures Less(Format(a), Format(b)) <==>
            First(a.year, b.year, First(a.month, b.month, First(a.day, b.day, Less(TimeText(a), TimeText(b)))))
  {
    var x, y := TimeText(a), TimeText(b);
    SeparatedField("-", a.day, x, b.day, y);
    x, y := "-" + (Digits(2, a.day) + x), "-" + (Digits(2, b.day) + y);
    SeparatedField("-", a.month, x, b.month, y);
    x, y := "-" + (Digits(2, a.month) + x), "-" + (Digits(2, b.month) + y);
    SmallPowers();
    FieldDecides(4, a.year, x, b.year, y);
  }

  /** The text orders by whole seconds first and by the tails after that. */
  lemma FormatOrder(a: Instant, b: Instant)
    requires a.Valid() && b.Valid()
    ensures Less(Format(a), Format(b)) <==>
            FieldsBefore(a.Fields(), b.Fields()) || (a.SameSecond(b) && Less(Tail(Fraction(a)), Tail(Fraction(b))))
  {
    DateOrder(a, b);
    TimeOrder(a, b);
    SixFields(a.Fields(), b.Fields());
  }

  lemma SixFields(f: seq<nat>, g: seq<nat>)
    requires |f| == |g| == 6
    ensures FieldsBefore(f, g) <==>
            First(f[0], g[0], First(f[1], g[1], First(f[2], g[2],
              First(f[3], g[3], First(f[4], g[4], f[5] < g[5])))))
  {
    assert f[5..][1..] == [] && g[5..][1..] == [];
    assert FieldsBefore(f[5..], g[5..]) <==> f[5] < g[5];
    assert f[4..][1..] == f[5..] && g[4..][1..] == g[5..];
    assert FieldsBefore(f[4..], g[4..]) <==> f[4] < g[4] || (f[4] == g[4] && f[5] < g[5]);
    assert f[3..][1..] == f[4..] && g[3..][1..] == g[4..];
    assert FieldsBefore(f[3..], g[3..]) <==> f[3] < g[3] || (f[3] == g[3] && FieldsBefore(f[4..], g[4..]));
    assert f[2..][1..] == f[3..] && g[2..][1..] == g[3..];
    assert FieldsBefore(f[2..], g[2..]) <==> f[2] < g[2] || (f[2] == g[2] && FieldsBefore(f[3..], g[3..]));
    assert f[1..][1..] == f[2..] && g[1..][1..] == g[2..];
    assert FieldsBefore(f[1..], g[1..]) <==> f[1] < g[1] || (f[1] == g[1] && FieldsBefore(f[2..], g[2..]));
  }

  /** A fraction whose first differing digit is the smaller one sorts first. */
  lemma DigitDecides(fa: string, fb: string, i: nat)
    requires i < |fa| && i < |fb| && fa[..i] == fb[..i] && fa[i] < fb[i]
    ensures Less(Tail(fa), Tail(fb))
  {
    var head := "." + fa[..i];
    assert Tail(fa) == head + (fa[i..] + "Z") && Tail(fb) == head + (fb[i..] + "Z");
    LessAfter(head, fa[i..] + "Z", fb[i..] + "Z");
  }

  /** The closing 'Z' sorts above every digit and above the decimal point. */
  lemma PrefixSortsLast(fa: string, fb: string)
    requires ProperPrefix(fa, fb) && '0' <= fb[|fa|] <= '9'
    ensures !Less(Tail(fa), Tail(fb))
  {
    if fa != "" {
      var head, rest := "." + fa, fb[|fa|..] + "Z";
      assert Tail(fa) == head + "Z" && Tail(fb) == head + rest;
      LessAfter(head, "Z", rest);
      assert rest[0] == fb[|fa|];
    }
  }

  /** Within one second, an earlier fraction sorts later exactly when it is a
      proper prefix of the other. */
  lemma TailOrder(a: Instant, b: Instant)
    requires a.Valid() && b.Valid() && a.nanos < b.nanos
    ensures Less(Tail(Fraction(a)), Tail(Fraction(b))) <==> !ProperPrefix(Fraction(a), Fraction(b))
  {
    var fa, fb := Fraction(a), Fraction(b);
    var i := FractionsDiffer(a, b);
    if i < |fa| {
      DigitDecides(fa, fb, i);
      assert fa[i] != fb[i];
    } else {
      assert fa == fb[..i][..|fa|] == fb[..|fa|];
      PrefixSortsLast(fa, fb);
    }
  }

  /** The first digit in which two fractions of nine digits differ survives the
      trimming of the larger one. */
  lemma FractionsDiffer(a: Instant, b: Instant) returns (i: nat)
    requires a.Valid() && b.Valid() && a.nanos < b.nanos
    ensures i < |Fraction(b)| && '0' <= Fraction(b)[i] <= '9'
    ensures forall k :: 0 <= k < |Fraction(b)| ==> '0' <= Fraction(b)[k] <= '9'
    ensures if i < |Fraction(a)| then Fraction(a)[..i] == Fraction(b)[..i] && Fraction(a)[i] < Fraction(b)[i]
            else Fraction(a) == Fraction(b)[..i][..|Fraction(a)|]
  {
    var da, db := Digits(9, a.nanos), Digits(9, b.nanos);
    SmallPowers();
    DigitsOrder(9, a.nanos, b.nanos);
    i := FirstDifference(da, db);
    assert db[i] != '0';
    assert Fraction(b)[..i] == db[..i];
    if i < |Fraction(a)| {
      assert Fraction(a)[..i] == da[..i];
    } else {
      assert Fraction(a) == da[..i][..|Fraction(a)|];
    }
  }

  /** The stored text of an earlier instant fails to sort below that of a later
      one exactly when both fall in the same second and the earlier fraction is
      a proper prefix, possibly empty, of the later one. */
  lemma MisorderedExactly(a: Instant, b: Instant)
    requires a.Valid() && b.Valid() && Before(a, b)
    ensures !Less(Format(a), Format(b)) <==> a.SameSecond(b) && ProperPrefix(Fraction(a), Fraction(b))
    ensures Less(Format(a), Format(b)) <==> !Less(Format(b), Format(a))
  {
    FormatOrder(a, b);
    FormatOrder(b, a);
    NotBothBefore(a.Fields(), b.Fields());
    if a.SameSecond(b) {
      TailOrder(a, b);
      var s, t := Tail(Fraction(a)), Tail(Fraction(b));
      if Less(s, t) {
        Asymmetric(s, t);
      } else {
        Total(s, t);
        assert ProperPrefix(Fraction(a), Fraction(b));
        assert |s| != |t|;
      }
    }
  }

  lemma {:induction false} NotBothBefore(f: seq<nat>, g: seq<nat>)
    requires |f| == |g|
    ensures !(FieldsBefore(f, g) && FieldsBefore(g, f))
    ensures FieldsBefore(f, g) ==> f != g
  {
    if |f| > 0 {
      NotBothBefore(f[1..], g[1..]);
    }
  }

  /** What the lease queries test: expires_at <= now, on text. */
  predicate StoredExpired(expires: Instant, now: Instant)
  {
    !Less(Format(now), Format(expires))
  }

  predicate Expired(expires: Instant, now: Instant)
  {
    expires == now || Before(expires, now)
  }

  lemma {:induction false} FieldsTotal(f: seq<nat>, g: seq<nat>)
    requires |f| == |g|
    ensures f == g || FieldsBefore(f, g) || FieldsBefore(g, f)
  {
    if |f| > 0 {
      FieldsTotal(f[1..], g[1..]);
      assert f == [f[0]] + f[1..] && g == [g[0]] + g[1..];
    }
  }

  /** The expiry test is wrong only for a lease that expires in the current
      second and exactly when the smaller fraction is a prefix of the larger,
      so it is never wrong by a full second. */
  lemma ExpiryTestWrongExactly(expires: Instant, now: Instant)
    requires expires.Valid() && now.Valid()
    ensures StoredExpired(expires, now) != Expired(expires, now) <==>
            expires.SameSecond(now) &&
            (ProperPrefix(Fraction(expires), Fraction(now)) || ProperPrefix(Fraction(now), Fraction(expires)))
    ensures StoredExpired(expires, now) != Expired(expires, now) ==>
              -1_000_000_000 < now.nanos - expires.nanos < 1_000_000_000
  {
    FieldsTotal(expires.Fields(), now.Fields());
    NotBothBefore(expires.Fields(), now.Fields());
    if expires.SameSecond(now) && expires.nanos == now.nanos {
      assert expires == now;
      Irreflexive(Format(now));
    } else if Before(expires, now) {
      MisorderedExactly(expires, now);
      if expires.SameSecond(now) {
        SmallerIsPrefix(expires, now);
      }
    } else {
      assert Before(now, expires);
      MisorderedExactly(now, expires);
      if expires.SameSecond(now) {
        SmallerIsPrefix(now, expires);
      }
    }
  }

  lemma SmallerIsPrefix(a: Instant, b: Instant)
    requires a.Valid() && b.Valid() && Before(a, b) && a.SameSecond(b)
    ensures !ProperPrefix(Fraction(b), Fraction(a))
  {
    NotBothBefore(a.Fields(), b.Fields());
    var i := FractionsDiffer(a, b);
  }

  /* ----- instants that show it ----- */

  lemma {:induction false} ZeroDigits(width: nat, i: nat)
    requires i < width
    ensures Digits(width, 0)[i] == '0'
  {
    if i < width - 1 {
      ZeroDigits(width - 1, i);
    }
  }

  /** A whole second sorts after every later instant within it. */
  lemma WholeSecondSortsLast(a: Instant, b: Instant)
    requires a.Valid() && b.Valid() && a.SameSecond(b) && a.nanos == 0 < b.nanos
    ensures Before(a, b) && !Less(Format(a), Format(b))
  {
    forall i | 0 <= i < 9
      ensures Digits(9, 0)[i] == '0'
    {
      ZeroDigits(9, i);
    }
    var i := FractionsDiffer(a, b);
    MisorderedExactly(a, b);
  }

  const NOON := Instant(2024, 1, 1, 12, 0, 0, 0)
  const HALF_A_SECOND_LATER := Instant(2024, 1, 1, 12, 0, 0, 500_000_000)

  /** A lease that ran out at noon counts as running half a second later. */
  lemma ExpiredLeaseCountsAsRunning()
    ensures Expired(NOON, HALF_A_SECOND_LATER) && !StoredExpired(NOON, HALF_A_SECOND_LATER)
    ensures Before(NOON, HALF_A_SECOND_LATER) && !Less(Format(NOON), Format(HALF_A_SECOND_LATER))
  {
    WholeSecondSortsLast(NOON, HALF_A_SECOND_LATER);
    MisorderedExactly(NOON, HALF_A_SECOND_LATER);
  }

  /* ----- an expiry that the text takes back ----- */

  /** From now on, no later instant finds the lease running. */
  ghost predicate NeverRunsAgain(expires: Instant, since: Instant)
  {
    forall now: Instant :: now.Valid() && !Before(now, since) ==> StoredExpired(expires, now)
  }

  /** A fraction has nine digits exactly if the last one is not zero. */
  lemma FullFraction(a: Instant)
    requires a.Valid()
    ensures |Fraction(a)| == 9 <==> a.nanos % 10 != 0
    ensures a.nanos % 10 != 0 ==> Fraction(a) == Digits(9, a.nanos)
  {
    assert Digits(9, a.nanos)[8] == Digit(a.nanos % 10);
  }

  lemma {:induction false} FieldsTransitive(f: seq<nat>, g: seq<nat>, h: seq<nat>)
    requires |f| == |g| == |h| && FieldsBefore(f, g) && (g == h || FieldsBefore(g, h))
    ensures FieldsBefore(f, h)
  {
    if f[0] == g[0] && g != h && g[0] == h[0] {
      FieldsTransitive(f[1..], g[1..], h[1..]);
    }
  }

  /** What comes after a later instant comes after the earlier one; within one
      second, all three lie in it. */
  lemma LaterStill(a: Instant, b: Instant, c: Instant)
    requires Before(a, b) && !Before(c, b)
    ensures Before(a, c)
    ensures a.SameSecond(c) ==> a.SameSecond(b) && a.nanos < b.nanos <= c.nanos
  {
    FieldsTotal(b.Fields(), c.Fields());
    if FieldsBefore(a.Fields(), b.Fields()) {
      FieldsTransitive(a.Fields(), b.Fields(), c.Fields());
      NotBothBefore(a.Fields(), c.Fields());
    } else if FieldsBefore(b.Fields(), c.Fields()) {
      NotBothBefore(b.Fields(), c.Fields());
    }
  }

  /** Between two strings that share a prefix, everything shares it. */
  lemma PrefixBetween(s: string, t: string, u: string, k: nat)
    requires |s| == |t| == |u| && k <= |s| && s[..k] == u[..k]
    requires Less(s, t) && (t == u || Less(t, u))
    ensures t[..k] == s[..k]
  {
    var p, q := s[..k], t[..k];
    assert s == p + s[k..] && t == q + t[k..] && u == p + u[k..];
    LessOfHeads(p, s[k..], q, t[k..]);
    LessOfHeads(q, t[k..], p, u[k..]);
    if Less(p, q) {
      Asymmetric(p, q);
    }
  }

  /** Strings that share a prefix differ after it. */
  lemma DifferenceAfter(s: string, t: string, k: nat) returns (i: nat)
    requires |s| == |t| && k <= |s| && s[..k] == t[..k] && Less(s, t)
    ensures k <= i < |s| && s[i] < t[i]
  {
    assert s == s[..k] + s[k..] && t == s[..k] + t[k..];
    LessAfter(s[..k], s[k..], t[k..]);
    var j := FirstDifference(s[k..], t[k..]);
    i := k + j;
  }

  lemma TrimmedBetween(s: string, t: string, u: string)
    requires |s| == |t| == |u| && Less(s, t) && (t == u || Less(t, u))
    requires ProperPrefix(TrimZeros(s), TrimZeros(u))
    ensures ProperPrefix(TrimZeros(s), TrimZeros(t))
  {
    var k := |TrimZeros(s)|;
    assert u[..k] == TrimZeros(u)[..k];
    PrefixBetween(s, t, u, k);
    var i := DifferenceAfter(s, t, k);
    assert s[i] == '0' != t[i];
    assert TrimZeros(t)[..k] == t[..k];
  }

  /** Once text order finds an expired lease running, it found it running at
      every instant since its expiry. */
  lemma PrefixStays(e: Instant, t: Instant, now: Instant)
    requires e.Valid() && t.Valid() && now.Valid() && e.nanos < t.nanos <= now.nanos
    requires ProperPrefix(Fraction(e), Fraction(now))
    ensures ProperPrefix(Fraction(e), Fraction(t))
  {
    SmallPowers();
    DigitsOrder(9, e.nanos, t.nanos);
    DigitsOrder(9, t.nanos, now.nanos);
    TrimmedBetween(Digits(9, e.nanos), Digits(9, t.nanos), Digits(9, now.nanos));
  }

  /** An expiry that lies in the past and counts as past does so for good. */
  lemma PastIsFinal(e: Instant, t: Instant)
    requires e.Valid() && t.Valid() && Before(e, t) && StoredExpired(e, t)
    ensures NeverRunsAgain(e, t)
  {
    MisorderedExactly(e, t);
    forall now: Instant | now.Valid() && !Before(now, t)
      ensures StoredExpired(e, now)
    {
      LaterStill(e, t, now);
      MisorderedExactly(e, now);
      if e.SameSecond(now) && ProperPrefix(Fraction(e), Fraction(now)) {
        PrefixStays(e, t, now);
        assert false;
      }
    }
  }

  lemma AtExpiryIsFinal(e: Instant, t: Instant)
    requires e.Valid() && t.Valid() && e.nanos % 10 != 0 && e.SameSecond(t) && e.nanos - 1 <= t.nanos <= e.nanos
    requires StoredExpired(e, t)
    ensures NeverRunsAgain(e, t)
  {
    FullFraction(e);
    forall now: Instant | now.Valid() && !Before(now, t)
      ensures StoredExpired(e, now)
    {
      NotBefore(now, t);
      if Before(e, now) {
        MisorderedExactly(e, now);
      } else if now == e {
        Irreflexive(Format(e));
      } else {
        assert now == t;
      }
    }
  }

  /** The three ways not to lie before t. */
  lemma NotBefore(now: Instant, t: Instant)
    requires !Before(now, t)
    ensures Before(t, now) || now == t
    ensures t.SameSecond(now) ==> t.nanos <= now.nanos
  {
    FieldsTotal(now.Fields(), t.Fields());
    NotBothBefore(now.Fields(), t.Fields());
  }

  function At(a: Instant, nanos: nat): Instant
  {
    a.(nanos := nanos)
  }

  lemma SameSecondOrder(a: Instant, b: Instant)
    requires a.SameSecond(b)
    ensures Before(a, b) <==> a.nanos < b.nanos
  {
    NotBothBefore(a.Fields(), b.Fields());
  }

  /** One more in the last place lengthens the fraction. */
  lemma LastPlace(n: nat)
    requires n % 10 == 0
    ensures ProperPrefix(TrimZeros(Digits(9, n)), TrimZeros(Digits(9, n + 1)))
  {
    assert (n + 1) / 10 == n / 10 && (n + 1) % 10 == 1;
    LongerFraction(Digits(8, n / 10));
  }

  lemma LongerFraction(head: string)
    ensures ProperPrefix(TrimZeros(head + "0"), TrimZeros(head + "1"))
  {
    assert TrimZeros(head + "1") == head + "1";
    assert (head + "0")[..|head|] == head;
    assert TrimZeros(head + "0") == TrimZeros(head);
  }

  /** A nanosecond after an expiry whose last digit is zero, it is back. */
  lemma RunsAgainAfter(e: Instant)
    requires e.Valid() && e.nanos % 10 == 0
    ensures At(e, e.nanos + 1).Valid() && Before(e, At(e, e.nanos + 1)) && !StoredExpired(e, At(e, e.nanos + 1))
  {
    LastPlace(e.nanos);
    SameSecondOrder(e, At(e, e.nanos + 1));
    MisorderedExactly(e, At(e, e.nanos + 1));
  }

  /** An instant of the same second before the expiry, with nine digits of its
      own, finds the lease running. */
  lemma RunsBefore(e: Instant, nanos: nat)
    requires e.Valid() && nanos < e.nanos && nanos % 10 != 0
    ensures At(e, nanos).Valid() && !StoredExpired(e, At(e, nanos))
  {
    var now := At(e, nanos);
    SameSecondOrder(now, e);
    FullFraction(now);
    MisorderedExactly(now, e);
  }

  /** What is counted as expired at its expiry or before it can run again,
      unless the expiry has a last digit and there is no instant between. */
  lemma RunsAgain(e: Instant, t: Instant) returns (now: Instant)
    requires e.Valid() && t.Valid() && !Before(e, t) && StoredExpired(e, t)
    requires !(e.nanos % 10 != 0 && e.SameSecond(t) && e.nanos - 1 <= t.nanos <= e.nanos)
    ensures now.Valid() && !Before(now, t) && !StoredExpired(e, now)
  {
    NotBefore(e, t);
    if e.nanos % 10 == 0 {
      now := At(e, e.nanos + 1);
      RunsAgainAfter(e);
      EarlierStays(t, e, now);
    } else {
      MisorderedExactly(t, e);
      SameSecondOrder(t, e);
      FullFraction(t);
      now := At(e, if e.nanos % 10 == 1 then e.nanos - 2 else e.nanos - 1);
      RunsBefore(e, now.nanos);
      SameSecondOrder(now, t);
    }
  }

  lemma EarlierStays(t: Instant, e: Instant, now: Instant)
    requires (t == e || Before(t, e)) && Before(e, now)
    ensures !Before(now, t)
  {
    NotBothBefore(e.Fields(), now.Fields());
    NotBothBefore(now.Fields(), t.Fields());
    if t != e {
      EarlierThan(t, e, now);
    }
  }

  lemma EarlierThan(t: Instant, e: Instant, now: Instant)
    requires Before(t, e) && Before(e, now)
    ensures !Before(now, t)
  {
    NotAfter(e, now);
    LaterStill(t, e, now);
    NotAfter(t, now);
  }

  lemma NotAfter(a: Instant, b: Instant)
    requires Before(a, b)
    ensures !Before(b, a)
  {
    NotBothBefore(a.Fields(), b.Fields());
  }

  /** The expiry lies in the past, or it has nine digits and is now or one
      nanosecond away. */
  predicate FinallyExpired(e: Instant, t: Instant)
  {
    Before(e, t) || (e.nanos % 10 != 0 && e.SameSecond(t) && e.nanos - 1 <= t.nanos <= e.nanos)
  }

  /** Exactly then a lease that counts as expired never counts as running again. */
  lemma ExpiryIsFinalExactly(e: Instant, t: Instant)
    requires e.Valid() && t.Valid() && StoredExpired(e, t)
    ensures NeverRunsAgain(e, t) <==> FinallyExpired(e, t)
  {
    if Before(e, t) {
      PastIsFinal(e, t);
    } else if e.nanos % 10 != 0 && e.SameSecond(t) && e.nanos - 1 <= t.nanos <= e.nanos {
      AtExpiryIsFinal(e, t);
    } else {
      var now := RunsAgain(e, t);
    }
  }

  lemma LaterThanLater(now: Instant, until: Instant, later: Instant)
    requires !Before(until, now) && !Before(later, until)
    ensures !Before(later, now)
  {
    if Before(later, now) {
      NotBefore(until, now);
      LaterStill(later, now, until);
      assert false;
    }
  }

  lemma NotBeforeItself(a: Instant)
    ensures !Before(a, a)
  {
    NotBothBefore(a.Fields(), a.Fields());
  }
}
