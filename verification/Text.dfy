/** The byte-wise string order in which the store compares stored identifiers
    and timestamps. */
module Text {

  predicate Less(s: string, t: string)
  {
    if t == "" then false
    else if s == "" then true
    else s[0] < t[0] || (s[0] == t[0] && Less(s[1..], t[1..]))
  }

  lemma {:induction false} Irreflexive(s: string)
    ensures !Less(s, s)
  {
    if s != "" {
      Irreflexive(s[1..]);
    }
  }

  lemma {:induction false} LessTransitive(s: string, t: string, u: string)
    requires Less(s, t) && Less(t, u)
    ensures Less(s, u)
  {
    if s != "" && s[0] == t[0] == u[0] {
      LessTransitive(s[1..], t[1..], u[1..]);
    }
  }

  lemma {:induction false} Total(s: string, t: string)
    ensures s == t || Less(s, t) || Less(t, s)
  {
    if s != "" && t != "" && s[0] == t[0] {
      Total(s[1..], t[1..]);
      assert s == [s[0]] + s[1..] && t == [t[0]] + t[1..];
    }
  }

  lemma Asymmetric(s: string, t: string)
    requires Less(s, t)
    ensures !Less(t, s)
  {
  }

  /** Strings with equally long heads are ordered by the heads first. */
  lemma {:induction false} LessOfHeads(p: string, s: string, q: string, t: string)
    requires |p| == |q|
    ensures Less(p + s, q + t) <==> Less(p, q) || (p == q && Less(s, t))
  {
    if p == "" {
      assert p + s == s && q + t == t;
    } else {
      assert (p + s)[1..] == p[1..] + s && (q + t)[1..] == q[1..] + t;
      LessOfHeads(p[1..], s, q[1..], t);
      assert p == [p[0]] + p[1..] && q == [q[0]] + q[1..];
    }
  }

  lemma LessAfter(p: string, s: string, t: string)
    ensures Less(p + s, p + t) <==> Less(s, t)
  {
    LessOfHeads(p, s, p, t);
    Irreflexive(p);
  }

  /** Between equally long strings, the first difference decides. */
  lemma {:induction false} FirstDifference(s: string, t: string) returns (i: nat)
    requires |s| == |t| && Less(s, t)
    ensures i < |s| && s[..i] == t[..i] && s[i] < t[i]
  {
    if s[0] < t[0] {
      i := 0;
    } else {
      var j := FirstDifference(s[1..], t[1..]);
      i := j + 1;
      assert s[..i] == [s[0]] + s[1..][..j] && t[..i] == [t[0]] + t[1..][..j];
    }
  }
}
