/**
 * The fragment of java.util.regex that the extractor's patterns use: literal
 * characters, `.` and `.*`, matched against the whole input as
 * String.matches does. `.` does not match a line terminator.
 */
module JavaRegex {

  datatype Atom = Lit(c: char) | AnyChar | AnyStar

  predicate IsLineTerminator(c: char)
  {
    c == '\n' || c == '\r' || c == '\U{85}' || c == '\U{2028}' || c == '\U{2029}'
  }

  predicate NoLineTerminator(s: string)
  {
    forall i :: 0 <= i < |s| ==> !IsLineTerminator(s[i])
  }

  /** Whether one atom accepts one character (for `.*`, each character it repeats over). */
  predicate Accepts(a: Atom, c: char)
  {
    match a
    case Lit(x) => c == x
    case AnyChar => !IsLineTerminator(c)
    case AnyStar => !IsLineTerminator(c)
  }

  predicate Starless(re: seq<Atom>)
  {
    forall i :: 0 <= i < |re| ==> !re[i].AnyStar?
  }

  /** Whole-string match of `re` against `s`. */
  predicate Matches(re: seq<Atom>, s: string)
    decreases |re| + |s|
  {
    if re == [] then s == []
    else if re[0].AnyStar? then
      Matches(re[1..], s) || (s != [] && !IsLineTerminator(s[0]) && Matches(re, s[1..]))
    else
      s != [] && Accepts(re[0], s[0]) && Matches(re[1..], s[1..])
  }

  function Literal(t: string): seq<Atom>
  {
    seq(|t|, i requires 0 <= i < |t| => Lit(t[i]))
  }

  /** Character-by-character acceptance, the meaning of a pattern without `.*`. */
  predicate FixedAccepts(re: seq<Atom>, s: string)
  {
    |re| == |s| && forall i :: 0 <= i < |re| ==> Accepts(re[i], s[i])
  }

  /** A pattern without `.*` matches exactly the strings of its length that it accepts position by position. */
  lemma {:induction false} FixedMatch(re: seq<Atom>, s: string)
    requires Starless(re)
    ensures Matches(re, s) <==> FixedAccepts(re, s)
  {
    if re != [] && s != [] {
      assert Starless(re[1..]) by {
        forall i | 0 <= i < |re[1..]| ensures !re[1..][i].AnyStar? {
          assert re[1..][i] == re[i + 1];
        }
      }
      FixedMatch(re[1..], s[1..]);
      if FixedAccepts(re, s) {
        forall i | 0 <= i < |re| - 1 ensures Accepts(re[1..][i], s[1..][i]) {
          assert Accepts(re[i + 1], s[i + 1]);
        }
      }
      if Accepts(re[0], s[0]) && FixedAccepts(re[1..], s[1..]) {
        forall i | 0 <= i < |re| ensures Accepts(re[i], s[i]) {
          if i > 0 {
            assert re[1..][i - 1] == re[i] && s[1..][i - 1] == s[i];
          }
        }
      }
    } else if re != [] {
      assert !re[0].AnyStar?;
    }
  }

  /** `.*` followed by `q` matches `s` iff some prefix free of line terminators is followed by a match of `q`. */
  lemma {:induction false} StarSplit(q: seq<Atom>, s: string)
    ensures Matches([AnyStar] + q, s) <==>
            exists k :: 0 <= k <= |s| && NoLineTerminator(s[..k]) && Matches(q, s[k..])
  {
    var re := [AnyStar] + q;
    assert re[1..] == q;
    if s == [] {
      if Matches(q, s) {
        assert NoLineTerminator(s[..0]) && s[0..] == s;
      }
    } else {
      StarSplit(q, s[1..]);
      if Matches(re, s) {
        if Matches(q, s) {
          assert NoLineTerminator(s[..0]) && s[0..] == s;
        } else {
          var k :| 0 <= k <= |s[1..]| && NoLineTerminator(s[1..][..k]) && Matches(q, s[1..][k..]);
          assert s[k + 1..] == s[1..][k..];
          var u, v := s[..k + 1], s[1..][..k];
          assert NoLineTerminator(u) by {
            forall i | 0 <= i < |u| ensures !IsLineTerminator(u[i]) {
              if i > 0 {
                assert u[i] == v[i - 1];
              }
            }
          }
        }
      }
      if exists k :: 0 <= k <= |s| && NoLineTerminator(s[..k]) && Matches(q, s[k..]) {
        var k :| 0 <= k <= |s| && NoLineTerminator(s[..k]) && Matches(q, s[k..]);
        if k == 0 {
          assert s[0..] == s;
        } else {
          assert s[1..][k - 1..] == s[k..];
          var u, v := s[1..][..k - 1], s[..k];
          assert NoLineTerminator(u) by {
            forall i | 0 <= i < |u| ensures !IsLineTerminator(u[i]) {
              assert u[i] == v[i + 1];
            }
          }
          assert s[..k][0] == s[0];
        }
      }
    }
  }

  /** A pattern without `.*` in front of `r` consumes exactly its own length of the input. */
  lemma {:induction false} PrefixSplit(p: seq<Atom>, r: seq<Atom>, s: string)
    requires Starless(p)
    ensures Matches(p + r, s) <==> |p| <= |s| && Matches(p, s[..|p|]) && Matches(r, s[|p|..])
  {
    if p == [] {
      assert p + r == r;
      assert s[..0] == [] && s[0..] == s;
    } else {
      assert (p + r)[0] == p[0];
      assert (p + r)[1..] == p[1..] + r;
      assert !p[0].AnyStar?;
      assert Starless(p[1..]) by {
        forall i | 0 <= i < |p[1..]| ensures !p[1..][i].AnyStar? {
          assert p[1..][i] == p[i + 1];
        }
      }
      if s != [] {
        PrefixSplit(p[1..], r, s[1..]);
        if |p| <= |s| {
          assert s[..|p|][0] == s[0];
          assert s[..|p|][1..] == s[1..][..|p| - 1];
          assert s[1..][|p| - 1..] == s[|p|..];
        }
      }
    }
  }

  /** Where `.*` stops when `.*` followed by `q` matches `s`. */
  lemma StarWitness(q: seq<Atom>, s: string) returns (k: nat)
    requires Matches([AnyStar] + q, s)
    ensures k <= |s| && NoLineTerminator(s[..k]) && Matches(q, s[k..])
  {
    StarSplit(q, s);
    k :| 0 <= k <= |s| && NoLineTerminator(s[..k]) && Matches(q, s[k..]);
  }

  /** A pattern without `.*` that matches a suffix of `t` matches the last `|q|` characters. */
  lemma FixedSuffix(q: seq<Atom>, t: string, k: nat)
    requires Starless(q)
    requires k <= |t| && Matches(q, t[k..])
    ensures k == |t| - |q| && FixedAccepts(q, t[k..])
  {
    FixedMatch(q, t[k..]);
  }

  lemma StarThenFixedOnly(q: seq<Atom>, t: string)
    requires Starless(q)
    requires Matches([AnyStar] + q, t)
    ensures |q| <= |t| && NoLineTerminator(t[..|t| - |q|]) && FixedAccepts(q, t[|t| - |q|..])
  {
    var k := StarWitness(q, t);
    FixedSuffix(q, t, k);
  }

  lemma StarThenFixedIf(q: seq<Atom>, t: string)
    requires Starless(q)
    requires |q| <= |t| && NoLineTerminator(t[..|t| - |q|]) && FixedAccepts(q, t[|t| - |q|..])
    ensures Matches([AnyStar] + q, t)
  {
    StarSplit(q, t);
    var k := |t| - |q|;
    FixedMatch(q, t[k..]);
    assert NoLineTerminator(t[..k]) && Matches(q, t[k..]);
  }

  /** After a prefix without `.*`, what `.*` followed by `q` accepts: the rest, cut where `q` must start. */
  lemma StarThenFixed(q: seq<Atom>, t: string)
    requires Starless(q)
    ensures Matches([AnyStar] + q, t) <==>
            |q| <= |t| && NoLineTerminator(t[..|t| - |q|]) && FixedAccepts(q, t[|t| - |q|..])
  {
    if Matches([AnyStar] + q, t) {
      StarThenFixedOnly(q, t);
    }
    if |q| <= |t| && NoLineTerminator(t[..|t| - |q|]) && FixedAccepts(q, t[|t| - |q|..]) {
      StarThenFixedIf(q, t);
    }
  }

  /** A prefix without `.*` is matched position by position, and the rest of the pattern takes the rest. */
  lemma FixedThenRest(p: seq<Atom>, r: seq<Atom>, s: string)
    requires Starless(p)
    ensures Matches(p + r, s) <==> |p| <= |s| && FixedAccepts(p, s[..|p|]) && Matches(r, s[|p|..])
  {
    PrefixSplit(p, r, s);
    if |p| <= |s| {
      FixedMatch(p, s[..|p|]);
    }
  }

  lemma StarMiddleTooShort(p: seq<Atom>, q: seq<Atom>, s: string)
    requires Starless(p) && Starless(q)
    requires |s| < |p| + |q|
    ensures !Matches(p + ([AnyStar] + q), s)
  {
    FixedThenRest(p, [AnyStar] + q, s);
    if |p| <= |s| {
      StarThenFixed(q, s[|p|..]);
    }
  }

  lemma StarMiddleLongEnough(p: seq<Atom>, q: seq<Atom>, s: string)
    requires Starless(p) && Starless(q)
    requires |p| + |q| <= |s|
    ensures Matches(p + ([AnyStar] + q), s) <==>
            FixedAccepts(p, s[..|p|]) && NoLineTerminator(s[|p|..|s| - |q|]) && FixedAccepts(q, s[|s| - |q|..])
  {
    var t := s[|p|..];
    assert t[..|t| - |q|] == s[|p|..|s| - |q|];
    assert t[|t| - |q|..] == s[|s| - |q|..];
    FixedThenRest(p, [AnyStar] + q, s);
    StarThenFixed(q, t);
  }

  /**
   * A pattern with one `.*` between two parts without one: the parts accept the
   * two ends of the input position by position, and the `.*` takes what is left
   * in between, provided that holds no line terminator.
   */
  lemma StarMiddle(p: seq<Atom>, q: seq<Atom>, s: string)
    requires Starless(p) && Starless(q)
    ensures Matches(p + [AnyStar] + q, s) <==>
            |p| + |q| <= |s| && FixedAccepts(p, s[..|p|])
            && NoLineTerminator(s[|p|..|s| - |q|]) && FixedAccepts(q, s[|s| - |q|..])
  {
    assert p + [AnyStar] + q == p + ([AnyStar] + q);
    if |s| < |p| + |q| {
      StarMiddleTooShort(p, q, s);
    } else {
      StarMiddleLongEnough(p, q, s);
    }
  }
}
