/** Allow-list patterns: a '*' stands for any (possibly empty) run of characters, every other
    character for itself, and a pattern "finds" a host when it matches some part of it. */
module Wildcard {

  const ANY: char := '*'

  /** Whether the pattern p matches the whole of s. */
  predicate Matches(p: string, s: string)
    decreases |p| + |s|
  {
    if p == [] then s == []
    else if p[0] == ANY then Matches(p[1..], s) || (s != [] && Matches(p, s[1..]))
    else s != [] && s[0] == p[0] && Matches(p[1..], s[1..])
  }

  /** Matcher.find(): the pattern matches some contiguous part of host, not necessarily all of it. */
  predicate Finds(p: string, host: string) {
    exists i, j | 0 <= i <= j <= |host| :: Matches(p, host[i..j])
  }

  /** The number of characters of p that must be matched literally. */
  function LiteralCount(p: string): nat {
    if p == [] then 0 else (if p[0] == ANY then 0 else 1) + LiteralCount(p[1..])
  }

  predicate OccursAt(p: string, host: string, i: nat) {
    i + |p| <= |host| && host[i..i + |p|] == p
  }

  /** Without '*', a pattern matches exactly the string it spells. */
  lemma {:induction false} MatchesLiteral(p: string, s: string)
    requires ANY !in p
    ensures Matches(p, s) <==> s == p
  {
    if p != [] {
      assert p[0] != ANY;
      MatchesLiteral(p[1..], if s == [] then s else s[1..]);
      if s != [] && s[0] == p[0] && s[1..] == p[1..] {
        assert s == [s[0]] + s[1..];
        assert p == [p[0]] + p[1..];
      }
    }
  }

  /** Every match covers at least the literal characters of the pattern. */
  lemma {:induction false} MatchesLength(p: string, s: string)
    requires Matches(p, s)
    ensures LiteralCount(p) <= |s|
    decreases |p| + |s|
  {
    if p != [] {
      if p[0] == ANY {
        if Matches(p[1..], s) {
          MatchesLength(p[1..], s);
        } else {
          MatchesLength(p, s[1..]);
        }
      } else {
        MatchesLength(p[1..], s[1..]);
      }
    }
  }

  /** A trailing '*' never loses a match. */
  lemma {:induction false} MatchesStarSuffix(p: string, s: string)
    requires Matches(p, s)
    ensures Matches(p + [ANY], s)
    decreases |p| + |s|
  {
    var q := p + [ANY];
    if p == [] {
      assert q == [ANY] && q[1..] == [];
    } else {
      assert q[0] == p[0] && q[1..] == p[1..] + [ANY];
      if p[0] == ANY {
        if Matches(p[1..], s) {
          MatchesStarSuffix(p[1..], s);
        } else {
          MatchesStarSuffix(p, s[1..]);
        }
      } else {
        MatchesStarSuffix(p[1..], s[1..]);
      }
    }
  }

  /** A pattern without '*' finds a host exactly when it occurs in it as a substring. */
  lemma FindsLiteral(p: string, host: string)
    requires ANY !in p
    ensures Finds(p, host) <==> exists i: nat :: OccursAt(p, host, i)
  {
    if Finds(p, host) {
      var i, j :| 0 <= i <= j <= |host| && Matches(p, host[i..j]);
      MatchesLiteral(p, host[i..j]);
      assert OccursAt(p, host, i);
    }
    if i: nat :| OccursAt(p, host, i) {
      MatchesLiteral(p, p);
      assert Matches(p, host[i..i + |p|]);
    }
  }

  /** A match found in a part of a host is a match in the host. */
  lemma FindsInPart(p: string, host: string, a: nat, b: nat)
    requires a <= b <= |host| && Finds(p, host[a..b])
    ensures Finds(p, host)
  {
    var part := host[a..b];
    var i, j :| 0 <= i <= j <= |part| && Matches(p, part[i..j]);
    assert a + j <= b;
    assert forall k :: 0 <= k < j - i ==> part[i..j][k] == host[a + i..a + j][k];
    assert part[i..j] == host[a + i..a + j];
    assert Matches(p, host[a + i..a + j]);
  }

  /** Nothing finds a match in a host shorter than the pattern's literal part. */
  lemma NotFoundInShortHost(p: string, host: string)
    requires |host| < LiteralCount(p)
    ensures !Finds(p, host)
  {
    if Finds(p, host) {
      var i, j :| 0 <= i <= j <= |host| && Matches(p, host[i..j]);
      MatchesLength(p, host[i..j]);
    }
  }

  /** A pattern written between two '*' finds every host containing its literal text. */
  lemma {:induction false} StarredFindsContaining(w: string, host: string, i: nat)
    requires ANY !in w && OccursAt(w, host, i)
    ensures Finds([ANY] + w + [ANY], host)
  {
    var p := [ANY] + w + [ANY];
    MatchesLiteral(w, w);
    MatchesStarSuffix(w, w);
    assert p[0] == ANY && p[1..] == w + [ANY];
    assert Matches(p, w);
    assert host[i..i + |w|] == w;
  }
}
