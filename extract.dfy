/** Extract: facts drawn from a list of tweets, namely the time span they
    cover and the usernames they @-mention. */
module Extract {
  import opened Strings
  import opened Tweets

  /* ---------------------------------------------------------------------
     Time span
     --------------------------------------------------------------------- */

  /** The earliest timestamp, computed as the scan does: left to right,
      replacing the running minimum by any timestamp strictly before it. */
  function Earliest(tweets: seq<Tweet>): (m: int)
    requires |tweets| > 0
    ensures forall k :: 0 <= k < |tweets| ==> m <= tweets[k].timestamp
    ensures exists k :: 0 <= k < |tweets| && tweets[k].timestamp == m
    decreases |tweets|
  {
    if |tweets| == 1 then tweets[0].timestamp
    else
      var front := tweets[..|tweets| - 1];
      var ts := tweets[|tweets| - 1].timestamp;
      var m := Earliest(front);
      if ts < m then ts else m
  }

  /** The latest timestamp, replacing the running maximum by any timestamp
      strictly after it. */
  function Latest(tweets: seq<Tweet>): (m: int)
    requires |tweets| > 0
    ensures forall k :: 0 <= k < |tweets| ==> tweets[k].timestamp <= m
    ensures exists k :: 0 <= k < |tweets| && tweets[k].timestamp == m
    decreases |tweets|
  {
    if |tweets| == 1 then tweets[0].timestamp
    else
      var front := tweets[..|tweets| - 1];
      var ts := tweets[|tweets| - 1].timestamp;
      var m := Latest(front);
      if ts > m then ts else m
  }

  /** The span of a list of tweets: an error for the empty list, otherwise
      the smallest interval holding every timestamp, whose ends are
      timestamps of tweets in the list. */
  function Span(tweets: seq<Tweet>): (r: Result<Timespan>)
    ensures r.Failure? <==> tweets == []
    ensures r.Success? ==> r.value.start <= r.value.end
    ensures r.Success? ==> forall t :: t in tweets ==> r.value.start <= t.timestamp <= r.value.end
    ensures r.Success? ==> exists t :: t in tweets && t.timestamp == r.value.start
    ensures r.Success? ==> exists t :: t in tweets && t.timestamp == r.value.end
  {
    if |tweets| == 0 then Failure("no tweets not a spec")
    else Success(Timespan(Earliest(tweets), Latest(tweets)))
  }

  /** getTimespan: one pass keeping the running minimum and maximum. */
  method GetTimespan(tweets: seq<Tweet>) returns (r: Result<Timespan>)
    ensures r == Span(tweets)
  {
    if |tweets| == 0 {
      return Failure("no tweets not a spec");
    }
    var min := tweets[0].timestamp;
    var max := min;
    for i := 0 to |tweets|
      invariant i == 0 ==> min == tweets[0].timestamp && max == tweets[0].timestamp
      invariant i > 0 ==> min == Earliest(tweets[..i]) && max == Latest(tweets[..i])
    {
      var ts := tweets[i].timestamp;
      if ts < min {
        min := ts;
      }
      if ts > max {
        max := ts;
      }
      assert tweets[..i + 1][..i] == tweets[..i];
    }
    assert tweets[..|tweets|] == tweets;
    return Success(Timespan(min, max));
  }

  /** No interval holding every timestamp is smaller than the span. */
  lemma SpanIsMinimal(tweets: seq<Tweet>, other: Timespan)
    requires tweets != []
    requires forall t :: t in tweets ==> other.start <= t.timestamp <= other.end
    ensures other.start <= Span(tweets).value.start
    ensures Span(tweets).value.end <= other.end
  {
  }

  /** A single tweet spans exactly its own instant. */
  lemma SpanOfOne(t: Tweet)
    ensures Span([t]) == Success(Timespan(t.timestamp, t.timestamp))
  {
  }

  /** The span of a list lies within the span of any list holding all of
      its tweets. */
  lemma SpanWithin(a: seq<Tweet>, b: seq<Tweet>)
    requires a != []
    requires forall t :: t in a ==> t in b
    ensures b != []
    ensures Span(b).value.start <= Span(a).value.start
    ensures Span(a).value.end <= Span(b).value.end
  {
    assert a[0] in b;
    var sa := Span(a).value;
    var t1 :| t1 in a && t1.timestamp == sa.start;
    var t2 :| t2 in a && t2.timestamp == sa.end;
    assert t1 in b && t2 in b;
  }

  /** The span does not depend on the order of the tweets. */
  lemma SpanOrderIndependent(a: seq<Tweet>, b: seq<Tweet>)
    requires multiset(a) == multiset(b)
    ensures Span(a) == Span(b)
  {
    assert forall t :: t in a <==> t in multiset(a);
    assert forall t :: t in b <==> t in multiset(b);
    if a != [] {
      SpanWithin(a, b);
      SpanWithin(b, a);
    } else if b != [] {
      SpanWithin(b, a);
    }
  }

  /* ---------------------------------------------------------------------
     Mentions: the pattern (?<![A-Za-z0-9_])@([A-Za-z0-9_]+) written out
     --------------------------------------------------------------------- */

  /** Position i starts a mention: an '@' not preceded by a username
      character and followed by at least one. */
  predicate IsMentionAt(text: string, i: int) {
    && 0 <= i && i + 1 < |text|
    && text[i] == '@'
    && (i == 0 || !IsWordChar(text[i - 1]))
    && IsWordChar(text[i + 1])
  }

  /** The end of the maximal run of username characters starting at j:
      the greedy `+` of the pattern. */
  function RunEnd(text: string, j: nat): (k: nat)
    requires j <= |text|
    ensures j <= k <= |text|
    ensures forall m :: j <= m < k ==> IsWordChar(text[m])
    ensures k == |text| || !IsWordChar(text[k])
    decreases |text| - j
  {
    if j < |text| && IsWordChar(text[j]) then RunEnd(text, j + 1) else j
  }

  /** The captured group of the mention at i, lower-cased. */
  function MentionAt(text: string, i: int): string
    requires IsMentionAt(text, i)
  {
    ToLower(text[i + 1 .. RunEnd(text, i + 1)])
  }

  /** The names of the mentions starting before position n. */
  function MentionsBefore(text: string, n: int): set<string> {
    set i | 0 <= i < n && IsMentionAt(text, i) :: MentionAt(text, i)
  }

  /** The usernames mentioned in one text. */
  function Mentions(text: string): set<string> {
    MentionsBefore(text, |text|)
  }

  /** Matcher.find: the first mention at or after `from`, with the end of
      its match; `found` is false when there is none. */
  method FindMention(text: string, from: nat) returns (found: bool, start: nat, end: nat)
    requires from <= |text|
    ensures found ==> from <= start && IsMentionAt(text, start) && end == RunEnd(text, start + 1)
    ensures found ==> forall i :: from <= i < start ==> !IsMentionAt(text, i)
    ensures !found ==> forall i :: from <= i < |text| ==> !IsMentionAt(text, i)
  {
    var i := from;
    while i < |text|
      invariant from <= i <= |text|
      invariant forall k :: from <= k < i ==> !IsMentionAt(text, k)
    {
      if IsMentionAt(text, i) {
        return true, i, RunEnd(text, i + 1);
      }
      i := i + 1;
    }
    return false, 0, 0;
  }

  /** Once a mention at `start` is found with nothing before it from
      `from` on, the mentions before the end of its match are the earlier
      ones plus this one: the captured run holds no '@'. */
  lemma MentionsBeforeMatch(text: string, from: int, start: int)
    requires 0 <= from <= start && IsMentionAt(text, start)
    requires forall i :: from <= i < start ==> !IsMentionAt(text, i)
    ensures MentionsBefore(text, RunEnd(text, start + 1))
         == MentionsBefore(text, from) + {MentionAt(text, start)}
  {
    var e := RunEnd(text, start + 1);
    forall i | start < i < e
      ensures !IsMentionAt(text, i)
    {
      assert IsWordChar(text[i]);
    }
  }

  /** The `while (m.find())` loop over one text: adds the lower-cased
      captured group of every match to `users`. */
  method AddMentions(text: string, users: set<string>) returns (result: set<string>)
    ensures result == users + Mentions(text)
  {
    result := users;
    var from := 0;
    var found, start, end := FindMention(text, from);
    while found
      invariant from <= |text|
      invariant result == users + MentionsBefore(text, from)
      invariant found ==> from <= start && IsMentionAt(text, start) && end == RunEnd(text, start + 1)
      invariant found ==> forall i :: from <= i < start ==> !IsMentionAt(text, i)
      invariant !found ==> forall i :: from <= i < |text| ==> !IsMentionAt(text, i)
      decreases |text| - from
    {
      MentionsBeforeMatch(text, from, start);
      result := result + {ToLower(text[start + 1 .. end])};
      from := end;
      found, start, end := FindMention(text, from);
    }
  }

  /** The usernames mentioned in any of the tweets. */
  function MentionedUsers(tweets: seq<Tweet>): set<string> {
    set t, u | t in tweets && u in Mentions(t.text) :: u
  }

  /** getMentionedUsers: the union over the tweets of their mentions. */
  method GetMentionedUsers(tweets: seq<Tweet>) returns (users: set<string>)
    ensures users == MentionedUsers(tweets)
  {
    users := {};
    for k := 0 to |tweets|
      invariant users == MentionedUsers(tweets[..k])
    {
      MentionedUsersAppend(tweets[..k], [tweets[k]]);
      assert tweets[..k + 1] == tweets[..k] + [tweets[k]];
      users := AddMentions(tweets[k].text, users);
    }
    assert tweets[..|tweets|] == tweets;
  }

  /** The mentions of a concatenation are the union of the mentions of the
      parts; a single tweet contributes the mentions of its text. */
  lemma MentionedUsersAppend(a: seq<Tweet>, b: seq<Tweet>)
    ensures MentionedUsers(a + b) == MentionedUsers(a) + MentionedUsers(b)
    ensures MentionedUsers([]) == {}
    ensures |b| == 1 ==> MentionedUsers(b) == Mentions(b[0].text)
  {
    assert forall t :: t in a + b <==> t in a || t in b;
  }

  /** Every returned name is a non-empty string of [a-z0-9_], hence already
      in canonical lower case. */
  lemma MentionIsCanonical(text: string, u: string)
    requires u in Mentions(text)
    ensures |u| > 0
    ensures forall k :: 0 <= k < |u| ==> IsLowerWordChar(u[k])
    ensures ToLower(u) == u
  {
    var i :| 0 <= i < |text| && IsMentionAt(text, i) && MentionAt(text, i) == u;
    var run := text[i + 1 .. RunEnd(text, i + 1)];
    forall k | 0 <= k < |u|
      ensures IsLowerWordChar(u[k])
    {
      assert IsWordChar(run[k]);
      LowerCharFacts(run[k]);
    }
    ToLowerOfLowerWord(u);
  }

  /** The captured name is the whole username run after the '@': it is
      never followed by a username character. */
  lemma MentionIsMaximal(text: string, i: int)
    requires IsMentionAt(text, i)
    ensures var e := RunEnd(text, i + 1);
      && i + 1 < e
      && (e == |text| || !IsWordChar(text[e]))
      && |MentionAt(text, i)| == e - i - 1
  {
  }

  /** Matches never overlap: a later mention starts after the end of the
      previous one's captured run, so scanning on from the end of each
      match finds every mention position. */
  lemma MentionsDoNotOverlap(text: string, i: int, j: int)
    requires IsMentionAt(text, i) && IsMentionAt(text, j) && i < j
    ensures RunEnd(text, i + 1) < j
  {
  }

  /** An '@' preceded by a username character (as in bitdiddle@mit.edu or
      a@bob) is no mention, and the name after it is not captured by any
      mention either. */
  lemma EmbeddedAtIsIgnored(text: string, i: int)
    requires 0 < i < |text| && text[i] == '@' && IsWordChar(text[i - 1])
    ensures !IsMentionAt(text, i)
    ensures forall j :: IsMentionAt(text, j) ==> !(j < i + 1 < RunEnd(text, j + 1))
  {
  }

  /** A text without '@' mentions nobody. */
  lemma NoAtNoMentions(text: string)
    requires '@' !in text
    ensures Mentions(text) == {}
  {
  }

  /** The run of username characters ends at the same place whatever the
      case of the letters. */
  lemma {:induction false} RunEndIgnoresCase(a: string, b: string, j: nat)
    requires |a| == |b| && j <= |a|
    requires forall k :: 0 <= k < |a| ==> LowerChar(a[k]) == LowerChar(b[k])
    ensures RunEnd(a, j) == RunEnd(b, j)
    decreases |a| - j
  {
    if j < |a| {
      LowerCharFacts(a[j]);
      LowerCharFacts(b[j]);
      RunEndIgnoresCase(a, b, j + 1);
    }
  }

  /** Mentions are case-insensitive: texts that differ only in the case of
      letters mention the same set of users, so @Bob and @BOB collapse. */
  lemma MentionsIgnoreCase(a: string, b: string)
    requires EqualsIgnoreCase(a, b)
    ensures Mentions(a) == Mentions(b)
  {
    assert |a| == |ToLower(a)| == |ToLower(b)| == |b|;
    assert forall k :: 0 <= k < |a| ==> LowerChar(a[k]) == ToLower(a)[k] == ToLower(b)[k] == LowerChar(b[k]);
    forall i | 0 <= i < |a|
      ensures IsMentionAt(a, i) <==> IsMentionAt(b, i)
      ensures IsMentionAt(a, i) ==> MentionAt(a, i) == MentionAt(b, i)
    {
      LowerCharFacts(a[i]);
      LowerCharFacts(b[i]);
      if i > 0 {
        LowerCharFacts(a[i - 1]);
        LowerCharFacts(b[i - 1]);
      }
      if i + 1 < |a| {
        LowerCharFacts(a[i + 1]);
        LowerCharFacts(b[i + 1]);
        RunEndIgnoresCase(a, b, i + 1);
      }
    }
  }

  /** "@Bob" mentions exactly bob; so does "@BOB". */
  lemma MentionsOfBob()
    ensures Mentions("@Bob") == {"bob"}
    ensures Mentions("@BOB") == {"bob"}
  {
    var s := "@Bob";
    assert RunEnd(s, 4) == 4;
    assert RunEnd(s, 1) == 4;
    assert IsMentionAt(s, 0);
    assert ToLower("Bob") == "bob";
    assert MentionAt(s, 0) == "bob";
    forall i | 0 < i < |s|
      ensures !IsMentionAt(s, i)
    {
      assert s[i] != '@';
    }
    assert ToLower("@BOB") == ToLower(s);
    MentionsIgnoreCase("@BOB", s);
  }

  /** The end of a run is where the username characters stop. */
  lemma {:induction false} RunEndAt(text: string, j: nat, k: nat)
    requires j <= k <= |text|
    requires forall m :: j <= m < k ==> IsWordChar(text[m])
    requires k == |text| || !IsWordChar(text[k])
    ensures RunEnd(text, j) == k
    decreases k - j
  {
    if j < k {
      RunEndAt(text, j + 1, k);
    }
  }

  /** A mention at i whose name is the username run text[i + 1 .. k]. */
  lemma MentionOfRun(text: string, i: nat, k: nat)
    requires i + 1 < k <= |text| && text[i] == '@'
    requires i == 0 || !IsWordChar(text[i - 1])
    requires forall m :: i + 1 <= m < k ==> IsWordChar(text[m])
    requires k == |text| || !IsWordChar(text[k])
    ensures IsMentionAt(text, i)
    ensures MentionAt(text, i) == ToLower(text[i + 1 .. k])
  {
    RunEndAt(text, i + 1, k);
  }

  /** Lower-casing a slice gives w when each of its characters lower-cases
      to the matching character of w. */
  lemma LowerSliceIs(text: string, i: nat, w: string)
    requires i + |w| <= |text|
    requires forall k :: 0 <= k < |w| ==> LowerChar(text[i + k]) == w[k]
    ensures ToLower(text[i .. i + |w|]) == w
  {
  }

  /** The text of the case-collapse example. */
  const CarolText := "shoutout to @Carol804, and @carol804 again."

  /** Only positions 12 and 27 of the example hold an '@'. */
  lemma CarolMentionPositions()
    ensures forall i :: 0 <= i < |CarolText| && i != 12 && i != 27 ==> !IsMentionAt(CarolText, i)
  {
    var s := CarolText;
    forall i | 0 <= i < |s| && i != 12 && i != 27
      ensures !IsMentionAt(s, i)
    {
      assert s[i] != '@';
    }
  }

  /** The first captured run, "Carol804", lower-cases to "carol804". */
  lemma CarolFirstName()
    ensures ToLower(CarolText[13..21]) == "carol804"
  {
    var s := CarolText;
    forall k | 0 <= k < 8
      ensures LowerChar(s[13 + k]) == "carol804"[k]
    {
      if k == 0 {
        assert s[13] == 'C';
      }
    }
    LowerSliceIs(s, 13, "carol804");
  }

  /** Position 12 is a mention of carol804: the run stops at the comma. */
  lemma CarolFirstMention()
    ensures IsMentionAt(CarolText, 12) && MentionAt(CarolText, 12) == "carol804"
  {
    MentionOfRun(CarolText, 12, 21);
    CarolFirstName();
  }

  /** The second captured run is already "carol804". */
  lemma CarolSecondName()
    ensures ToLower(CarolText[28..36]) == "carol804"
  {
    LowerSliceIs(CarolText, 28, "carol804");
  }

  /** Position 27 is a mention of carol804: the run stops at the space. */
  lemma CarolSecondMention()
    ensures IsMentionAt(CarolText, 27) && MentionAt(CarolText, 27) == "carol804"
  {
    MentionOfRun(CarolText, 27, 36);
    CarolSecondName();
  }

  /** Two mentions of one name in different case, the first followed by
      punctuation, give that name once. */
  lemma MentionsCollapseCase()
    ensures Mentions("shoutout to @Carol804, and @carol804 again.") == {"carol804"}
  {
    CarolMentionPositions();
    CarolFirstMention();
    CarolSecondMention();
  }

  /** The text of the e-mail-like example. */
  const AddressText := "a@bob is not a mention but @bob is."

  /** Of the two '@' of the example, at 1 and 27, the first follows a
      username character. */
  lemma AddressAtPositions()
    ensures forall i :: 0 <= i < |AddressText| && i != 27 ==> !IsMentionAt(AddressText, i)
  {
    var s := AddressText;
    forall i | 0 <= i < |s| && i != 27
      ensures !IsMentionAt(s, i)
    {
      if i != 1 {
        assert s[i] != '@';
      }
    }
  }

  /** Position 27 is a mention of bob. */
  lemma AddressMention()
    ensures IsMentionAt(AddressText, 27) && MentionAt(AddressText, 27) == "bob"
  {
    MentionOfRun(AddressText, 27, 31);
    LowerSliceIs(AddressText, 28, "bob");
  }

  /** In "a@bob is not a mention but @bob is." the first '@' follows a
      username character and is no mention; the second one is. */
  lemma NoMentionInAddress()
    ensures Mentions("a@bob is not a mention but @bob is.") == {"bob"}
  {
    AddressAtPositions();
    AddressMention();
  }
}
