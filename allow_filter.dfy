/** The allow list: blocked hosts that some allowed pattern finds are not written to the hosts file. */
module AllowFilter {
  import opened Wildcard

  /** The predicate of getAllowedHostsFilter: no allowed pattern finds a match in the host. */
  predicate PassesAllowFilter(allowed: seq<string>, host: string) {
    forall p | p in allowed :: !Finds(p, host)
  }

  /** computeBlockedHosts: the blocked hosts that pass the allow filter, in their original order. */
  function ComputeBlockedHosts(blocked: seq<string>, allowed: seq<string>): (r: seq<string>)
    ensures |r| <= |blocked|
    ensures forall h :: h in r <==> h in blocked && PassesAllowFilter(allowed, h)
  {
    if blocked == [] then []
    else
      assert blocked == [blocked[0]] + blocked[1..];
      (if PassesAllowFilter(allowed, blocked[0]) then [blocked[0]] else [])
        + ComputeBlockedHosts(blocked[1..], allowed)
  }

  /** Filtering a concatenation filters each part: the filter keeps the hosts' relative order. */
  lemma {:induction false} ComputeBlockedHostsAppend(a: seq<string>, b: seq<string>, allowed: seq<string>)
    ensures ComputeBlockedHosts(a + b, allowed) == ComputeBlockedHosts(a, allowed) + ComputeBlockedHosts(b, allowed)
  {
    if a == [] {
      assert a + b == b;
    } else {
      assert (a + b)[0] == a[0] && (a + b)[1..] == a[1..] + b;
      ComputeBlockedHostsAppend(a[1..], b, allowed);
    }
  }

  /** A kept host keeps every one of its duplicates; a host the allow list matches keeps none. */
  lemma {:induction false} ComputeBlockedHostsCount(blocked: seq<string>, allowed: seq<string>, h: string)
    ensures multiset(ComputeBlockedHosts(blocked, allowed))[h]
         == if PassesAllowFilter(allowed, h) then multiset(blocked)[h] else 0
  {
    if blocked != [] {
      ComputeBlockedHostsCount(blocked[1..], allowed, h);
      assert blocked == [blocked[0]] + blocked[1..];
    }
  }

  /** An empty allow list excludes nothing. */
  lemma {:induction false} EmptyAllowListKeepsAll(blocked: seq<string>)
    ensures ComputeBlockedHosts(blocked, []) == blocked
  {
    if blocked != [] {
      EmptyAllowListKeepsAll(blocked[1..]);
      assert blocked == [blocked[0]] + blocked[1..];
    }
  }

  /** A worked example: "*example*" removes ads.example.com and keeps a.com. */
  lemma ExampleAllowList()
    ensures ComputeBlockedHosts(["a.com", "ads.example.com"], ["*example*"]) == ["a.com"]
  {
    ExampleKeepsShortHost();
    ExampleExcludesContainingHost();
    var blocked := ["a.com", "ads.example.com"];
    assert blocked[1..] == ["ads.example.com"];
    assert blocked[1..][1..] == [];
  }

  lemma ExampleKeepsShortHost()
    ensures PassesAllowFilter(["*example*"], "a.com")
  {
    var p := "*example*";
    assert p == [ANY] + "example" + [ANY];
    assert LiteralCount(p) == 7;
    NotFoundInShortHost(p, "a.com");
  }

  lemma ExampleExcludesContainingHost()
    ensures !PassesAllowFilter(["*example*"], "ads.example.com")
  {
    var p := "*example*";
    assert p == [ANY] + "example" + [ANY];
    assert OccursAt("example", "ads.example.com", 4);
    StarredFindsContaining("example", "ads.example.com", 4);
  }
}
