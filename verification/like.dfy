/**
  SQLite's `LIKE` operator with its default settings, as the text search of
  the catalogue uses it (`filename LIKE '%q%' OR notes LIKE '%q%'`): `%`
  matches any run of characters, `_` matches exactly one character, there is
  no escape character, and letters compare case-insensitively for ASCII only.
 */
module Like {

  /** ASCII case folding: upper-case ASCII letters map to lower case, every
      other character is left alone. */
  function Fold(c: char): char
  {
    if 'A' <= c <= 'Z' then (c as int + 32) as char else c
  }

  /** The pattern `p` matches the whole of `t`. */
  predicate LikeMatch(p: string, t: string)
    decreases |p| + |t|
  {
    if |p| == 0 then |t| == 0
    else if p[0] == '%' then LikeMatch(p[1..], t) || (|t| > 0 && LikeMatch(p, t[1..]))
    else |t| > 0 && (p[0] == '_' || Fold(p[0]) == Fold(t[0])) && LikeMatch(p[1..], t[1..])
  }

  /** The pattern a search for `q` hands to `LIKE`. */
  function Infix(q: string): string
  {
    "%" + q + "%"
  }

  predicate NoWildcards(q: string)
  {
    forall i :: 0 <= i < |q| ==> q[i] != '%' && q[i] != '_'
  }

  /** `q` is a prefix of `u` up to ASCII case. */
  predicate FoldPrefix(q: string, u: string)
  {
    |q| <= |u| && forall k :: 0 <= k < |q| ==> Fold(q[k]) == Fold(u[k])
  }

  /** Reference definition of a case-insensitive substring test. */
  predicate ContainsFolded(t: string, q: string)
  {
    exists i :: 0 <= i <= |t| && FoldPrefix(q, t[i..])
  }

  lemma {:induction false} PercentMatchesAll(t: string)
    ensures LikeMatch("%", t)
    decreases |t|
  {
    assert "%"[1..] == "";
    if |t| > 0 {
      PercentMatchesAll(t[1..]);
    }
  }

  /** A wildcard-free pattern followed by `%` matches exactly the strings
      that start with it, up to case. */
  lemma {:induction false} PrefixThenPercent(q: string, u: string)
    requires NoWildcards(q)
    ensures LikeMatch(q + "%", u) <==> FoldPrefix(q, u)
    decreases |q|
  {
    if |q| == 0 {
      assert q + "%" == "%";
      PercentMatchesAll(u);
    } else {
      var p := q + "%";
      assert p[0] == q[0] && p[0] != '%' && p[0] != '_';
      assert p[1..] == q[1..] + "%";
      assert NoWildcards(q[1..]) by {
        forall i | 0 <= i < |q[1..]|
          ensures q[1..][i] != '%' && q[1..][i] != '_'
        {
          assert q[1..][i] == q[i + 1];
        }
      }
      if |u| > 0 {
        PrefixThenPercent(q[1..], u[1..]);
        if FoldPrefix(q, u) {
          assert FoldPrefix(q[1..], u[1..]) by {
            forall k | 0 <= k < |q[1..]|
              ensures Fold(q[1..][k]) == Fold(u[1..][k])
            {
              assert Fold(q[k + 1]) == Fold(u[k + 1]);
            }
          }
        }
        if LikeMatch(p, u) {
          assert FoldPrefix(q[1..], u[1..]);
          forall k | 0 <= k < |q|
            ensures Fold(q[k]) == Fold(u[k])
          {
            if k > 0 {
              assert Fold(q[1..][k - 1]) == Fold(u[1..][k - 1]);
            }
          }
        }
      }
    }
  }

  /** A leading `%` lets the rest of the pattern match any suffix. */
  lemma {:induction false} LeadingPercent(p: string, t: string)
    ensures LikeMatch("%" + p, t) <==> exists i :: 0 <= i <= |t| && LikeMatch(p, t[i..])
    decreases |t|
  {
    var pp := "%" + p;
    assert pp[0] == '%' && pp[1..] == p;
    if |t| == 0 {
      assert t[0..] == t;
    } else {
      LeadingPercent(p, t[1..]);
      if LikeMatch(pp, t) {
        if LikeMatch(p, t) {
          assert t[0..] == t;
        } else {
          assert LikeMatch(pp, t[1..]);
          var i :| 0 <= i <= |t[1..]| && LikeMatch(p, t[1..][i..]);
          assert t[1..][i..] == t[i + 1..];
        }
      }
      if exists i :: 0 <= i <= |t| && LikeMatch(p, t[i..]) {
        var i :| 0 <= i <= |t| && LikeMatch(p, t[i..]);
        if i == 0 {
          assert t[0..] == t;
        } else {
          assert t[1..][i - 1..] == t[i..];
          assert LikeMatch(pp, t[1..]);
        }
      }
    }
  }

  /** For a query without wildcards, `LIKE '%q%'` is exactly a
      case-insensitive (ASCII) substring test. */
  lemma LikeIsContainment(q: string, t: string)
    requires NoWildcards(q)
    ensures LikeMatch(Infix(q), t) <==> ContainsFolded(t, q)
  {
    assert Infix(q) == "%" + (q + "%");
    LeadingPercent(q + "%", t);
    forall i | 0 <= i <= |t|
      ensures LikeMatch(q + "%", t[i..]) <==> FoldPrefix(q, t[i..])
    {
      PrefixThenPercent(q, t[i..]);
    }
  }
}
