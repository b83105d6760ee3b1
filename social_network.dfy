/** SocialNetwork: a follows graph guessed from @-mentions, and the ranking
    of its users by number of followers.

    A graph maps a (lower-cased) username to the set of usernames it is
    taken to follow. A user who only ever gets mentioned is no key; such a
    user still appears in the ranking. */
module SocialNetwork {
  import opened Strings
  import opened Tweets
  import opened Extract

  type FollowsGraph = map<string, set<string>>

  /* ---------------------------------------------------------------------
     guessFollowsGraph
     --------------------------------------------------------------------- */

  /** The lower-cased authors of the tweets. */
  function Authors(tweets: seq<Tweet>): set<string> {
    set t | t in tweets :: ToLower(t.author)
  }

  /** Whom author `a` mentions in any of its tweets, itself excepted. */
  function Followees(tweets: seq<Tweet>, a: string): set<string> {
    set t, u | t in tweets && ToLower(t.author) == a && u in Mentions(t.text) && u != a :: u
  }

  /** The graph the tweets give evidence for: every author is a key, and
      its followees are the users it mentions. */
  function FollowsGraphOf(tweets: seq<Tweet>): FollowsGraph {
    map a | a in Authors(tweets) :: Followees(tweets, a)
  }

  /** One more tweet adds its mentions, other than its author, to its
      author's followees, and nothing to anyone else's. */
  lemma FolloweesAppend(s: seq<Tweet>, t: Tweet, b: string)
    ensures Followees(s + [t], b)
         == Followees(s, b) + (if b == ToLower(t.author) then Mentions(t.text) - {b} else {})
  {
    assert forall x :: x in s + [t] <==> x in s || x == t;
  }

  /** One more tweet adds its author as a key (if new) and its mentions,
      other than the author, to the author's followees. */
  lemma GraphAppend(s: seq<Tweet>, t: Tweet)
    ensures var g, a := FollowsGraphOf(s), ToLower(t.author);
      FollowsGraphOf(s + [t])
        == g[a := (if a in g then g[a] else {}) + (Mentions(t.text) - {a})]
  {
    var g, a := FollowsGraphOf(s), ToLower(t.author);
    var g' := FollowsGraphOf(s + [t]);
    var expected := g[a := (if a in g then g[a] else {}) + (Mentions(t.text) - {a})];
    assert Authors(s + [t]) == Authors(s) + {a} by {
      assert forall x :: x in s + [t] <==> x in s || x == t;
    }
    forall b | b in g'
      ensures g'[b] == expected[b]
    {
      FolloweesAppend(s, t, b);
      if b == a && a !in g {
        assert Followees(s, b) == {};
      }
    }
  }

  /** The lower-cased mentioned users that are not the author. */
  function NewFollowees(mentioned: set<string>, author: string): set<string> {
    set m | m in mentioned && ToLower(m) != author :: ToLower(m)
  }

  /** The inner loop of guessFollowsGraph: each mentioned user, lower-cased,
      joins the author's followees unless it is the author. */
  method AddFollowees(graph: FollowsGraph, author: string, mentioned: set<string>)
    returns (result: FollowsGraph)
    requires author in graph
    ensures result == graph[author := graph[author] + NewFollowees(mentioned, author)]
  {
    result := graph;
    var rest := mentioned;
    assert NewFollowees(mentioned - rest, author) == {};
    while rest != {}
      invariant rest <= mentioned
      invariant result.Keys == graph.Keys
      invariant forall k :: k in graph && k != author ==> result[k] == graph[k]
      invariant result[author] == graph[author] + NewFollowees(mentioned - rest, author)
      decreases rest
    {
      var m :| m in rest;
      var mentionedUser := ToLower(m);
      if mentionedUser != author {
        result := result[author := result[author] + {mentionedUser}];
      }
      assert NewFollowees(mentioned - (rest - {m}), author)
          == NewFollowees(mentioned - rest, author) + (if mentionedUser != author then {mentionedUser} else {});
      rest := rest - {m};
    }
    assert mentioned - rest == mentioned;
  }

  /** The users a tweet mentions are already lower-case, so lower-casing
      them again, and dropping the author, leaves its mentions other than
      the author. */
  lemma NewFolloweesOfMentions(t: Tweet, author: string)
    ensures NewFollowees(Mentions(t.text), author) == Mentions(t.text) - {author}
  {
    forall m | m in Mentions(t.text)
      ensures ToLower(m) == m
    {
      MentionIsCanonical(t.text, m);
    }
  }

  /** guessFollowsGraph: for each tweet, make sure its lower-cased author is
      a key, then add each user its text mentions, unless that is the
      author. */
  method GuessFollowsGraph(tweets: seq<Tweet>) returns (graph: FollowsGraph)
    ensures graph == FollowsGraphOf(tweets)
  {
    graph := map[];
    for i := 0 to |tweets|
      invariant graph == FollowsGraphOf(tweets[..i])
    {
      var t := tweets[i];
      var author := ToLower(t.author);
      GraphAppend(tweets[..i], t);
      assert tweets[..i + 1] == tweets[..i] + [t];
      if author !in graph {
        graph := graph[author := {}];
      }
      var mentioned := GetMentionedUsers([t]);
      MentionedUsersAppend([], [t]);
      NewFolloweesOfMentions(t, author);
      graph := AddFollowees(graph, author, mentioned);
    }
    assert tweets[..|tweets|] == tweets;
  }

  /** No tweets, no graph. */
  lemma GraphOfNoTweets()
    ensures FollowsGraphOf([]) == map[]
  {
  }

  /** The keys are exactly the lower-cased authors: an author is a key even
      without mentions, and a user who is only mentioned is none. */
  lemma GraphKeys(tweets: seq<Tweet>, u: string)
    ensures u in FollowsGraphOf(tweets) <==> exists t :: t in tweets && ToLower(t.author) == u
  {
  }

  /** An edge a -> b exists iff some tweet by a mentions b, and b is not a. */
  lemma GraphEdges(tweets: seq<Tweet>, a: string, b: string)
    ensures (a in FollowsGraphOf(tweets) && b in FollowsGraphOf(tweets)[a])
        <==> exists t :: t in tweets && ToLower(t.author) == a && b in Mentions(t.text) && b != a
  {
    if exists t :: t in tweets && ToLower(t.author) == a && b in Mentions(t.text) && b != a {
      var t :| t in tweets && ToLower(t.author) == a && b in Mentions(t.text) && b != a;
      assert a in Authors(tweets);
    }
  }

  /** Nobody follows themselves, and every followee is a canonical username:
      non-empty, made of [a-z0-9_] only. */
  lemma GraphIsWellFormed(tweets: seq<Tweet>)
    ensures var g := FollowsGraphOf(tweets);
      forall a :: a in g ==> a !in g[a] && ToLower(a) == a
    ensures var g := FollowsGraphOf(tweets);
      forall a, b :: a in g && b in g[a] ==>
        |b| > 0 && ToLower(b) == b && forall k :: 0 <= k < |b| ==> IsLowerWordChar(b[k])
  {
    var g := FollowsGraphOf(tweets);
    forall a | a in g
      ensures ToLower(a) == a
    {
      var t :| t in tweets && ToLower(t.author) == a;
      ToLowerIdempotent(t.author);
    }
    forall a, b | a in g && b in g[a]
      ensures |b| > 0 && ToLower(b) == b && forall k :: 0 <= k < |b| ==> IsLowerWordChar(b[k])
    {
      var t, u :| t in tweets && ToLower(t.author) == a && u in Mentions(t.text) && u != a && u == b;
      MentionIsCanonical(t.text, b);
    }
  }

  /** The graph of a concatenation: keys and followee sets are the unions
      of those of the parts, so repeated tweets by one author accumulate. */
  lemma GraphOfConcat(s1: seq<Tweet>, s2: seq<Tweet>, a: string)
    ensures var g, g1, g2 := FollowsGraphOf(s1 + s2), FollowsGraphOf(s1), FollowsGraphOf(s2);
      && (a in g <==> a in g1 || a in g2)
      && (a in g ==> g[a] == (if a in g1 then g1[a] else {}) + (if a in g2 then g2[a] else {}))
  {
    assert forall x :: x in s1 + s2 <==> x in s1 || x in s2;
    assert Authors(s1 + s2) == Authors(s1) + Authors(s2);
    assert Followees(s1 + s2, a) == Followees(s1, a) + Followees(s2, a);
    if a !in Authors(s1) {
      assert Followees(s1, a) == {};
    }
    if a !in Authors(s2) {
      assert Followees(s2, a) == {};
    }
  }

  /** The graph does not depend on the order of the tweets. */
  lemma GraphOrderIndependent(s1: seq<Tweet>, s2: seq<Tweet>)
    requires multiset(s1) == multiset(s2)
    ensures FollowsGraphOf(s1) == FollowsGraphOf(s2)
  {
    assert forall t :: t in s1 <==> t in multiset(s1);
    assert forall t :: t in s2 <==> t in multiset(s2);
    assert Authors(s1) == Authors(s2);
    forall a | a in Authors(s1)
      ensures Followees(s1, a) == Followees(s2, a)
    {
    }
  }

  /* ---------------------------------------------------------------------
     influencers: counting
     --------------------------------------------------------------------- */

  /** The followees of the given keys. */
  function FolloweesOf(g: FollowsGraph, keys: set<string>): set<string> {
    set a, u | a in keys && a in g && u in g[a] :: u
  }

  /** Every username of the network: keys and followees. */
  function Users(g: FollowsGraph): set<string> {
    g.Keys + FolloweesOf(g, g.Keys)
  }

  /** The keys among `keys` that follow u. */
  function FollowersAmong(g: FollowsGraph, keys: set<string>, u: string): set<string> {
    set a | a in keys && a in g && u in g[a]
  }

  /** The number of keys whose followee set holds u. */
  function FollowerCount(g: FollowsGraph, u: string): nat {
    |FollowersAmong(g, g.Keys, u)|
  }

  /** The follower count of every user of the network. */
  function FollowerCounts(g: FollowsGraph): map<string, int> {
    map u | u in Users(g) :: FollowerCount(g, u)
  }

  /** Map.getOrDefault. */
  function GetOrDefault(m: map<string, int>, k: string, d: int): int {
    if k in m then m[k] else d
  }

  /** Taking one more key into account adds one follower to each of its
      followees. */
  lemma FollowersStep(g: FollowsGraph, done: set<string>, a: string, u: string)
    requires a in g && a !in done
    ensures |FollowersAmong(g, done + {a}, u)|
         == |FollowersAmong(g, done, u)| + (if u in g[a] then 1 else 0)
  {
    if u in g[a] {
      assert FollowersAmong(g, done + {a}, u) == FollowersAmong(g, done, u) + {a};
    } else {
      assert FollowersAmong(g, done + {a}, u) == FollowersAmong(g, done, u);
    }
  }

  /** A user has a follower among `keys` exactly when it is a followee of
      one of them. */
  lemma FollowedIffFollowee(g: FollowsGraph, keys: set<string>, u: string)
    ensures FollowersAmong(g, keys, u) != {} <==> u in FolloweesOf(g, keys)
  {
    if FollowersAmong(g, keys, u) != {} {
      var b :| b in FollowersAmong(g, keys, u);
    }
    if u in FolloweesOf(g, keys) {
      var b :| b in keys && b in g && u in g[b];
      assert b in FollowersAmong(g, keys, u);
    }
  }

  /** Taking one more key into account adds its followees. */
  lemma FolloweesStep(g: FollowsGraph, keys: set<string>, a: string)
    requires a in g
    ensures FolloweesOf(g, keys + {a}) == FolloweesOf(g, keys) + g[a]
  {
    forall u | u in g[a]
      ensures u in FolloweesOf(g, keys + {a})
    {
    }
  }

  /** The loop over one key's followees: each followee's count goes up by
      one, starting from 0 for a followee not seen before. */
  method AddOneToEach(counts: map<string, int>, followees: set<string>) returns (result: map<string, int>)
    ensures result.Keys == counts.Keys + followees
    ensures forall u :: u in result ==>
      result[u] == GetOrDefault(counts, u, 0) + (if u in followees then 1 else 0)
  {
    result := counts;
    var rest := followees;
    while rest != {}
      invariant rest <= followees
      invariant result.Keys == counts.Keys + (followees - rest)
      invariant forall u :: u in result ==>
        result[u] == GetOrDefault(counts, u, 0) + (if u in followees - rest then 1 else 0)
      decreases rest
    {
      var followee :| followee in rest;
      result := result[followee := GetOrDefault(result, followee, 0) + 1];
      rest := rest - {followee};
    }
  }

  /** The first loop of the counting: every key gets the count 0. */
  method ZeroCounts(keys: set<string>) returns (counts: map<string, int>)
    ensures counts.Keys == keys
    ensures forall u :: u in counts ==> counts[u] == 0
  {
    counts := map[];
    var rest := keys;
    while rest != {}
      invariant rest <= keys
      invariant counts.Keys == keys - rest
      invariant forall u :: u in counts ==> counts[u] == 0
      decreases rest
    {
      var author :| author in rest;
      if author !in counts {
        counts := counts[author := 0];
      }
      rest := rest - {author};
    }
  }

  /** The counts after the keys `done` have been taken into account: every
      key and every followee of `done` has a count, namely the number of
      its followers among `done`. */
  ghost predicate CountedSoFar(g: FollowsGraph, done: set<string>, counts: map<string, int>) {
    && counts.Keys == g.Keys + FolloweesOf(g, done)
    && forall u :: u in counts ==> counts[u] == |FollowersAmong(g, done, u)|
  }

  /** One step of the counting loop keeps CountedSoFar. */
  lemma CountStep(g: FollowsGraph, done: set<string>, author: string,
                  before: map<string, int>, after: map<string, int>)
    requires author in g && author !in done
    requires CountedSoFar(g, done, before)
    requires after.Keys == before.Keys + g[author]
    requires forall u :: u in after ==>
      after[u] == GetOrDefault(before, u, 0) + (if u in g[author] then 1 else 0)
    ensures CountedSoFar(g, done + {author}, after)
  {
    forall u | u in after
      ensures after[u] == |FollowersAmong(g, done + {author}, u)|
    {
      FollowersStep(g, done, author, u);
      if u !in before {
        FollowedIffFollowee(g, done, u);
      }
    }
    FolloweesStep(g, done, author);
  }

  /** Before any key is taken into account, the keys and only they have a
      count, and it is 0. */
  lemma CountedNone(g: FollowsGraph, counts: map<string, int>)
    requires counts.Keys == g.Keys
    requires forall u :: u in counts ==> counts[u] == 0
    ensures CountedSoFar(g, {}, counts)
  {
    assert FolloweesOf(g, {}) == {};
    forall u | u in counts
      ensures counts[u] == |FollowersAmong(g, {}, u)|
    {
      assert FollowersAmong(g, {}, u) == {};
    }
  }

  /** Once every key is taken into account, the counts are the follower
      counts. */
  lemma CountedAll(g: FollowsGraph, counts: map<string, int>)
    requires CountedSoFar(g, g.Keys, counts)
    ensures counts == FollowerCounts(g)
  {
  }

  /** One iteration of the counting loop: the followees of one more key,
      taken from those still pending, get one more follower each. */
  method CountKey(g: FollowsGraph, pending: set<string>, author: string, counts: map<string, int>)
    returns (result: map<string, int>)
    requires pending <= g.Keys && author in pending
    requires CountedSoFar(g, g.Keys - pending, counts)
    ensures CountedSoFar(g, g.Keys - (pending - {author}), result)
  {
    result := AddOneToEach(counts, g[author]);
    CountStep(g, g.Keys - pending, author, counts, result);
    assert g.Keys - (pending - {author}) == (g.Keys - pending) + {author};
  }

  /** The followerCount map of influencers: every key starts at 0, then
      each followee of each key gets one more. */
  method CountFollowers(g: FollowsGraph) returns (counts: map<string, int>)
    ensures counts == FollowerCounts(g)
  {
    counts := ZeroCounts(g.Keys);
    CountedNone(g, counts);
    var pending := g.Keys;
    assert g.Keys - pending == {};
    while pending != {}
      invariant pending <= g.Keys
      invariant CountedSoFar(g, g.Keys - pending, counts)
      decreases pending
    {
      var author :| author in pending;
      counts := CountKey(g, pending, author, counts);
      pending := pending - {author};
    }
    assert g.Keys - pending == g.Keys;
    CountedAll(g, counts);
  }

  /* ---------------------------------------------------------------------
     influencers: ordering
     --------------------------------------------------------------------- */

  /** Integer.compare. */
  function IntegerCompare(x: int, y: int): int {
    if x < y then -1 else if x == y then 0 else 1
  }

  /** The comparator handed to users.sort: more followers first, then
      String.compareTo. */
  function CompareByInfluence(counts: map<string, int>, u1: string, u2: string): int {
    var c1 := GetOrDefault(counts, u1, 0);
    var c2 := GetOrDefault(counts, u2, 0);
    if c1 != c2 then IntegerCompare(c2, c1) else CompareTo(u1, u2)
  }

  /** u1 sorts strictly before u2 under the comparator. */
  predicate Precedes(counts: map<string, int>, u1: string, u2: string) {
    CompareByInfluence(counts, u1, u2) < 0
  }

  /** The comparator is a strict total order. */
  lemma PrecedesIsStrictTotalOrder(counts: map<string, int>, x: string, y: string, z: string)
    ensures !Precedes(counts, x, x)
    ensures Precedes(counts, x, y) ==> !Precedes(counts, y, x)
    ensures x != y ==> Precedes(counts, x, y) || Precedes(counts, y, x)
    ensures Precedes(counts, x, y) && Precedes(counts, y, z) ==> Precedes(counts, x, z)
  {
    CompareToZero(x, x);
    CompareToZero(x, y);
    CompareToAntisymmetric(x, y);
    if Precedes(counts, x, y) && Precedes(counts, y, z) {
      var cx, cy, cz := GetOrDefault(counts, x, 0), GetOrDefault(counts, y, 0), GetOrDefault(counts, z, 0);
      if cx == cy == cz {
        CompareToTransitive(x, y, z);
      }
    }
  }

  /** "Does not come after" is transitive. */
  lemma NotPrecedesTransitive(counts: map<string, int>, x: string, y: string, z: string)
    requires !Precedes(counts, x, y) && !Precedes(counts, y, z)
    ensures !Precedes(counts, x, z)
  {
    PrecedesIsStrictTotalOrder(counts, x, y, z);
    PrecedesIsStrictTotalOrder(counts, y, x, z);
    PrecedesIsStrictTotalOrder(counts, z, y, x);
    PrecedesIsStrictTotalOrder(counts, x, z, y);
    PrecedesIsStrictTotalOrder(counts, y, z, x);
  }

  /** No two positions hold the same name. */
  predicate Distinct(s: seq<string>) {
    forall p, q :: 0 <= p < q < |s| ==> s[p] != s[q]
  }

  /** Exchanges a[j - 1] and a[j]. */
  method SwapDown(a: array<string>, j: int)
    requires 0 < j < a.Length
    modifies a
    ensures a[..] == old(a[..])[j - 1 := old(a[j])][j := old(a[j - 1])]
    ensures multiset(a[..]) == old(multiset(a[..]))
    ensures Distinct(old(a[..])) ==> Distinct(a[..])
  {
    if Distinct(a[..]) {
      SwapKeepsDistinct(a[..], j);
    }
    a[j - 1], a[j] := a[j], a[j - 1];
  }

  /** Exchanging two neighbours keeps the elements distinct. */
  lemma SwapKeepsDistinct(s: seq<string>, j: int)
    requires 0 < j < |s| && Distinct(s)
    ensures Distinct(s[j - 1 := s[j]][j := s[j - 1]])
  {
    var t := s[j - 1 := s[j]][j := s[j - 1]];
    forall p, q | 0 <= p < q < |t|
      ensures t[p] != t[q]
    {
      var p' := if p == j - 1 then j else if p == j then j - 1 else p;
      var q' := if q == j - 1 then j else if q == j then j - 1 else q;
      assert t[p] == s[p'] && t[q] == s[q'] && p' != q';
      if p' > q' {
        assert s[q'] != s[p'];
      }
    }
  }

  /** Moves a[i] down into the already ordered a[..i], so that a[..i + 1]
      is ordered; the rest of the array is untouched. */
  method InsertDown(a: array<string>, i: int, counts: map<string, int>)
    requires 0 <= i < a.Length
    requires forall p, q :: 0 <= p < q < i ==> !Precedes(counts, a[q], a[p])
    modifies a
    ensures forall p, q :: 0 <= p < q <= i ==> !Precedes(counts, a[q], a[p])
    ensures forall k :: i < k < a.Length ==> a[k] == old(a[k])
    ensures multiset(a[..]) == old(multiset(a[..]))
    ensures Distinct(old(a[..])) ==> Distinct(a[..])
  {
    var j := i;
    while j > 0 && Precedes(counts, a[j], a[j - 1])
      invariant 0 <= j <= i
      invariant forall p, q :: 0 <= p < q <= i && p != j && q != j ==> !Precedes(counts, a[q], a[p])
      invariant forall q :: j < q <= i ==> !Precedes(counts, a[q], a[j])
      invariant forall k :: i < k < a.Length ==> a[k] == old(a[k])
      invariant multiset(a[..]) == old(multiset(a[..]))
      invariant Distinct(old(a[..])) ==> Distinct(a[..])
    {
      PrecedesIsStrictTotalOrder(counts, a[j], a[j - 1], a[j]);
      SwapDown(a, j);
      j := j - 1;
    }
    forall p | 0 <= p < j
      ensures !Precedes(counts, a[j], a[p])
    {
      if p < j - 1 {
        NotPrecedesTransitive(counts, a[j], a[j - 1], a[p]);
      }
    }
  }

  /** users.sort(comparator), in place (as an insertion sort): the array
      ends up a permutation of what it held, with no element after one
      that it precedes. */
  method SortByInfluence(a: array<string>, counts: map<string, int>)
    modifies a
    ensures multiset(a[..]) == old(multiset(a[..]))
    ensures forall p, q :: 0 <= p < q < a.Length ==> !Precedes(counts, a[q], a[p])
    ensures Distinct(old(a[..])) ==> Distinct(a[..])
  {
    var i := 0;
    while i < a.Length
      invariant 0 <= i <= a.Length
      invariant forall p, q :: 0 <= p < q < i ==> !Precedes(counts, a[q], a[p])
      invariant multiset(a[..]) == old(multiset(a[..]))
      invariant Distinct(old(a[..])) ==> Distinct(a[..])
    {
      InsertDown(a, i, counts);
      i := i + 1;
    }
  }

  /** new ArrayList<>(followerCount.keySet()): the keys, each once, in
      some order. */
  method KeysToList(s: set<string>) returns (r: seq<string>)
    ensures forall u :: u in r <==> u in s
    ensures Distinct(r)
  {
    r := [];
    var rest := s;
    while rest != {}
      invariant rest <= s
      invariant forall u :: u in r <==> u in s - rest
      invariant Distinct(r)
      decreases rest
    {
      var u :| u in rest;
      forall k | 0 <= k < |r|
        ensures r[k] != u
      {
        assert r[k] in r;
      }
      r := r + [u];
      rest := rest - {u};
    }
  }

  /** u ranks above v: more followers, or as many and a smaller name in
      String.compareTo order. */
  predicate RanksAbove(g: FollowsGraph, u: string, v: string) {
    || FollowerCount(g, u) > FollowerCount(g, v)
    || (FollowerCount(g, u) == FollowerCount(g, v) && CompareTo(u, v) < 0)
  }

  /** r lists every user of the network, each once, each ranked above all
      that follow it in the list. */
  ghost predicate IsRanking(g: FollowsGraph, r: seq<string>) {
    && (forall u :: u in r <==> u in Users(g))
    && (forall i, j :: 0 <= i < j < |r| ==> RanksAbove(g, r[i], r[j]))
  }

  /** On the users of the network, the comparator over the computed counts
      is the ranking order. */
  lemma ComparatorRanks(g: FollowsGraph, u: string, v: string)
    requires u in Users(g) && v in Users(g)
    ensures Precedes(FollowerCounts(g), u, v) <==> RanksAbove(g, u, v)
  {
  }

  /** influencers: every user of the network, by follower count descending,
      ties broken by name ascending. */
  method Influencers(g: FollowsGraph) returns (r: seq<string>)
    ensures IsRanking(g, r)
    ensures Distinct(r)
  {
    var counts := CountFollowers(g);
    var list := KeysToList(counts.Keys);
    var users := new string[|list|](i requires 0 <= i < |list| => list[i]);
    assert users[..] == list;
    SortByInfluence(users, counts);
    r := users[..];
    assert forall u :: u in r <==> u in multiset(r);
    assert forall u :: u in list <==> u in multiset(list);
    forall i, j | 0 <= i < j < |r|
      ensures RanksAbove(g, r[i], r[j])
    {
      PrecedesIsStrictTotalOrder(counts, r[i], r[j], r[i]);
      ComparatorRanks(g, r[i], r[j]);
    }
  }

  /** The ranking order is a strict total order on names. */
  lemma RanksAboveIsStrictTotalOrder(g: FollowsGraph, u: string, v: string)
    ensures !RanksAbove(g, u, u)
    ensures RanksAbove(g, u, v) ==> !RanksAbove(g, v, u)
    ensures u != v ==> RanksAbove(g, u, v) || RanksAbove(g, v, u)
  {
    CompareToZero(u, u);
    CompareToZero(u, v);
    CompareToAntisymmetric(u, v);
  }

  /** The ranking is unique: two lists that both rank the network are the
      same list, so the output is deterministic. */
  lemma {:induction false} RankingUnique(g: FollowsGraph, r1: seq<string>, r2: seq<string>)
    requires forall u :: u in r1 <==> u in r2
    requires forall i, j :: 0 <= i < j < |r1| ==> RanksAbove(g, r1[i], r1[j])
    requires forall i, j :: 0 <= i < j < |r2| ==> RanksAbove(g, r2[i], r2[j])
    ensures r1 == r2
    decreases |r1|
  {
    if r1 != [] || r2 != [] {
      var z := if r1 != [] then r1[0] else r2[0];
      assert z in r1 && z in r2;
      var x, y := r1[0], r2[0];
      assert x in r2 && y in r1;
      if x != y {
        var k :| 0 <= k < |r2| && r2[k] == x;
        var m :| 0 <= m < |r1| && r1[m] == y;
        assert k != 0 && m != 0;
        assert RanksAbove(g, y, x) && RanksAbove(g, x, y);
        RanksAboveIsStrictTotalOrder(g, x, y);
      }
      assert r1 == [x] + r1[1..] && r2 == [y] + r2[1..];
      forall u
        ensures u in r1[1..] ==> u in r2[1..]
        ensures u in r2[1..] ==> u in r1[1..]
      {
        RanksAboveIsStrictTotalOrder(g, u, u);
        if u in r1[1..] {
          var k :| 1 <= k < |r1| && r1[k] == u;
          assert RanksAbove(g, r1[0], r1[k]);
          assert u in r2;
          var k2 :| 0 <= k2 < |r2| && r2[k2] == u;
          assert r2[1..][k2 - 1] == u;
        }
        if u in r2[1..] {
          var k :| 1 <= k < |r2| && r2[k] == u;
          assert RanksAbove(g, r2[0], r2[k]);
          assert u in r1;
          var k1 :| 0 <= k1 < |r1| && r1[k1] == u;
          assert r1[1..][k1 - 1] == u;
        }
      }
      RankingUnique(g, r1[1..], r2[1..]);
      assert r1 == [x] + r1[1..] && r2 == [y] + r2[1..];
    }
  }

  /** The empty network ranks nobody. */
  lemma RankingOfEmptyGraph(r: seq<string>)
    requires IsRanking(map[], r)
    ensures r == []
  {
    assert Users(map[]) == {};
    RankingUnique(map[], r, []);
  }

  /** A key nobody follows has count 0 and is still ranked. */
  lemma UnfollowedKeyCountsZero(g: FollowsGraph, a: string)
    requires a in g && forall b :: b in g ==> a !in g[b]
    ensures FollowerCount(g, a) == 0 && a in Users(g)
  {
    assert FollowersAmong(g, g.Keys, a) == {};
  }

  /** A lone key without followees is the whole ranking. */
  lemma RankingOfLoneUser(r: seq<string>)
    requires IsRanking(map["alice" := {}], r)
    ensures r == ["alice"]
  {
    var g: FollowsGraph := map["alice" := {}];
    assert g.Keys == {"alice"} && g["alice"] == {};
    assert FolloweesOf(g, g.Keys) == {};
    assert Users(g) == {"alice"};
    RankingUnique(g, r, ["alice"]);
  }

  /** alice follows bob, charlie follows nobody: bob (one follower) ranks
      first, then alice and charlie (none) by name. */
  lemma RankingOfSingleInfluencer(r: seq<string>)
    requires IsRanking(map["alice" := {"bob"}, "charlie" := {}], r)
    ensures r == ["bob", "alice", "charlie"]
  {
    var g := map["alice" := {"bob"}, "charlie" := {}];
    assert g.Keys == {"alice", "charlie"} && g["alice"] == {"bob"} && g["charlie"] == {};
    assert FolloweesOf(g, g.Keys) == {"bob"} by {
      assert "bob" in g["alice"];
    }
    assert Users(g) == {"alice", "bob", "charlie"};
    assert FollowersAmong(g, g.Keys, "bob") == {"alice"};
    assert FollowersAmong(g, g.Keys, "alice") == {};
    assert FollowersAmong(g, g.Keys, "charlie") == {};
    var want := ["bob", "alice", "charlie"];
    assert CompareTo("alice", "charlie") < 0;
    assert forall i, j :: 0 <= i < j < |want| ==> RanksAbove(g, want[i], want[j]);
    RankingUnique(g, r, want);
  }

  /** The follower counts in the tie-break example. */
  lemma TieExampleCounts(g: FollowsGraph)
    requires g == map["a1" := {"alice"}, "b1" := {"bob"}]
    ensures Users(g) == {"a1", "b1", "alice", "bob"}
    ensures FollowerCount(g, "alice") == 1 && FollowerCount(g, "bob") == 1
    ensures FollowerCount(g, "a1") == 0 && FollowerCount(g, "b1") == 0
  {
    assert g.Keys == {"a1", "b1"} && g["a1"] == {"alice"} && g["b1"] == {"bob"};
    assert FolloweesOf(g, g.Keys) == {"alice", "bob"} by {
      assert "alice" in g["a1"] && "bob" in g["b1"];
    }
    assert FollowersAmong(g, g.Keys, "alice") == {"a1"};
    assert FollowersAmong(g, g.Keys, "bob") == {"b1"};
    assert FollowersAmong(g, g.Keys, "a1") == {};
    assert FollowersAmong(g, g.Keys, "b1") == {};
  }

  /** a1 follows alice and b1 follows bob: the tie at one follower is
      broken alphabetically, and so is the tie at none. */
  lemma RankingBreaksTiesByName(r: seq<string>)
    requires IsRanking(map["a1" := {"alice"}, "b1" := {"bob"}], r)
    ensures r == ["alice", "bob", "a1", "b1"]
  {
    var g := map["a1" := {"alice"}, "b1" := {"bob"}];
    TieExampleCounts(g);
    var want := ["alice", "bob", "a1", "b1"];
    assert CompareTo("alice", "bob") < 0;
    assert CompareTo("a1", "b1") < 0;
    assert forall i, j :: 0 <= i < j < |want| ==> RanksAbove(g, want[i], want[j]);
    RankingUnique(g, r, want);
  }
}
