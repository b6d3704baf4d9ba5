/** SQL `LIKE` as SQLite evaluates it when no ESCAPE clause is given: `%`
    matches any run of characters, `_` exactly one, every other character
    itself. SQLAlchemy's `ilike` on SQLite lower-cases both operands first. */
module SqlLike {
  import opened Text

  function Like(s: string, p: string): bool
    decreases |s| + |p|
  {
    if |p| == 0 then |s| == 0
    else if p[0] == '%' then Like(s, p[1..]) || (|s| > 0 && Like(s[1..], p))
    else |s| > 0 && (p[0] == '_' || p[0] == s[0]) && Like(s[1..], p[1..])
  }

  /** `title ILIKE '%q%'`. */
  function ILikeContains(title: string, q: string): bool {
    Like(Lower(title), "%" + Lower(q) + "%")
  }

  predicate NoWildcards(q: string) {
    forall i :: 0 <= i < |q| ==> q[i] != '%' && q[i] != '_'
  }

  lemma {:induction false} LikePercentMatchesAll(s: string)
    ensures Like(s, "%")
  {
    if |s| > 0 {
      LikePercentMatchesAll(s[1..]);
    }
  }

  /** A wildcard-free pattern followed by `%` matches exactly the strings it
      is a prefix of. */
  lemma {:induction false} LikePrefix(s: string, q: string)
    requires NoWildcards(q)
    ensures Like(s, q + "%") <==> |q| <= |s| && s[..|q|] == q
  {
    if |q| == 0 {
      assert q + "%" == "%";
      LikePercentMatchesAll(s);
    } else {
      assert (q + "%")[1..] == q[1..] + "%";
      if |s| > 0 {
        LikePrefix(s[1..], q[1..]);
        if |q| <= |s| && s[..|q|] == q {
          assert s[1..][..|q| - 1] == s[..|q|][1..];
        }
        if |q| <= |s| && s[1..][..|q| - 1] == q[1..] && q[0] == s[0] {
          assert s[..|q|] == [s[0]] + s[1..][..|q| - 1];
        }
      }
    }
  }

  /** A leading `%` lets the rest of the pattern match any suffix. */
  lemma {:induction false} LikeLeadingPercent(s: string, r: string)
    ensures Like(s, "%" + r) <==> exists i :: 0 <= i <= |s| && Like(s[i..], r)
  {
    assert ("%" + r)[1..] == r;
    if |s| == 0 {
      assert s[0..] == s;
    } else {
      LikeLeadingPercent(s[1..], r);
      if Like(s, "%" + r) {
        if !Like(s, r) {
          var j :| 0 <= j <= |s[1..]| && Like(s[1..][j..], r);
          assert s[1..][j..] == s[j + 1..];
        } else {
          assert s[0..] == s;
        }
      } else {
        forall i | 0 <= i <= |s|
          ensures !Like(s[i..], r)
        {
          if i == 0 {
            assert s[0..] == s;
          } else {
            assert s[1..][i - 1..] == s[i..];
          }
        }
      }
    }
  }

  /** `LIKE '%q%'` is substring containment when `q` has no wildcards. */
  lemma LikeContains(s: string, q: string)
    requires NoWildcards(q)
    ensures Like(s, "%" + q + "%") <==> Contains(s, q)
  {
    assert "%" + q + "%" == "%" + (q + "%");
    LikeLeadingPercent(s, q + "%");
    if Like(s, "%" + q + "%") {
      var i :| 0 <= i <= |s| && Like(s[i..], q + "%");
      LikePrefix(s[i..], q);
      assert s[i..][..|q|] == s[i..i + |q|];
      assert OccursAt(q, s, i);
    }
    if Contains(s, q) {
      var i: nat :| i <= |s| && OccursAt(q, s, i);
      LikePrefix(s[i..], q);
      assert s[i..][..|q|] == s[i..i + |q|];
    }
  }

  /** The search filter on titles: for a query without `%` or `_`, `ILIKE
      '%q%'` holds exactly when the lower-cased query occurs in the lower-cased
      title. */
  lemma SearchFilterIsSubstring(title: string, q: string)
    requires NoWildcards(q)
    ensures ILikeContains(title, q) <==> Contains(Lower(title), Lower(q))
  {
    LikeContains(Lower(title), Lower(q));
  }
}
