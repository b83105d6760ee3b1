/** Filter: the tweets of a list that match a condition, kept in input
    order. */
module Filter {
  import opened Strings
  import opened Tweets

  /** The condition behind each of the three filters. */
  datatype Criterion =
    | ByAuthor(username: string)
    | During(span: Timespan)
    | WithWords(words: seq<string>)

  /** A word boundary (\b) at position k: exactly one of the characters on
      either side is a word character (the ends of the text count as
      non-word). */
  predicate IsBoundary(text: string, k: int)
    requires 0 <= k <= |text|
  {
    (0 < k && IsWordChar(text[k - 1])) != (k < |text| && IsWordChar(text[k]))
  }

  /** The pattern \b<w>\b, case-insensitive, matches at position i. */
  predicate OccursAt(text: string, w: string, i: int) {
    && 0 <= i && i + |w| <= |text|
    && EqualsIgnoreCase(text[i .. i + |w|], w)
    && IsBoundary(text, i)
    && IsBoundary(text, i + |w|)
  }

  /** Matcher.find succeeds for \b<w>\b: the word occurs as a whole word. */
  predicate ContainsWord(text: string, w: string) {
    exists i :: 0 <= i <= |text| - |w| && OccursAt(text, w, i)
  }

  /** Whether a tweet passes the filter. */
  predicate Keeps(c: Criterion, t: Tweet) {
    match c
    case ByAuthor(u) => EqualsIgnoreCase(t.author, u)
    case During(s) => s.start <= t.timestamp && t.timestamp <= s.end
    case WithWords(ws) => exists w :: w in ws && w != "" && ContainsWord(t.text, w)
  }

  /** The tweets that pass, in input order: what each filter's loop builds
      by appending to its result list. */
  function Select(tweets: seq<Tweet>, c: Criterion): seq<Tweet>
    decreases |tweets|
  {
    if tweets == [] then []
    else
      var front := Select(tweets[..|tweets| - 1], c);
      if Keeps(c, tweets[|tweets| - 1]) then front + [tweets[|tweets| - 1]] else front
  }

  /** r can be obtained from s by deleting elements. */
  predicate IsSubsequence(r: seq<Tweet>, s: seq<Tweet>)
    decreases |s|
  {
    || r == []
    || (&& s != []
        && (|| (r[|r| - 1] == s[|s| - 1] && IsSubsequence(r[..|r| - 1], s[..|s| - 1]))
            || IsSubsequence(r, s[..|s| - 1])))
  }

  /** writtenBy: the tweets whose author equals the username ignoring case. */
  method WrittenBy(tweets: seq<Tweet>, username: string) returns (result: seq<Tweet>)
    ensures result == Select(tweets, ByAuthor(username))
  {
    result := [];
    for i := 0 to |tweets|
      invariant result == Select(tweets[..i], ByAuthor(username))
    {
      assert tweets[..i + 1][..i] == tweets[..i];
      if EqualsIgnoreCase(tweets[i].author, username) {
        result := result + [tweets[i]];
      }
    }
    assert tweets[..|tweets|] == tweets;
  }

  /** inTimespan: the tweets neither before the start nor after the end. */
  method InTimespan(tweets: seq<Tweet>, timespan: Timespan) returns (result: seq<Tweet>)
    ensures result == Select(tweets, During(timespan))
  {
    var start := timespan.start;
    var end := timespan.end;
    result := [];
    for i := 0 to |tweets|
      invariant result == Select(tweets[..i], During(timespan))
    {
      assert tweets[..i + 1][..i] == tweets[..i];
      var ts := tweets[i].timestamp;
      if !(ts < start) && !(ts > end) {
        result := result + [tweets[i]];
      }
    }
    assert tweets[..|tweets|] == tweets;
  }

  /** The words that become patterns: the non-empty ones, in order. */
  function Patterns(words: seq<string>): (ps: seq<string>)
    ensures forall w :: w in ps <==> w in words && w != ""
  {
    if words == [] then []
    else (if words[0] != "" then [words[0]] else []) + Patterns(words[1..])
  }

  /** The patterns keep the order of the words: those of a joined list are
      the first part's followed by the second part's. */
  lemma {:induction false} PatternsAppend(a: seq<string>, b: seq<string>)
    ensures Patterns(a + b) == Patterns(a) + Patterns(b)
    decreases |a|
  {
    if a == [] {
      assert a + b == b;
    } else {
      assert (a + b)[1..] == a[1..] + b;
      PatternsAppend(a[1..], b);
    }
  }

  /** containing: the tweets in which some non-empty word occurs as a whole
      word, ignoring case. */
  method Containing(tweets: seq<Tweet>, words: seq<string>) returns (result: seq<Tweet>)
    ensures result == Select(tweets, WithWords(words))
  {
    if |words| == 0 {
      NoWordsSelectNothing(tweets, words);
      return [];
    }
    var patterns := Patterns(words);
    result := [];
    for i := 0 to |tweets|
      invariant result == Select(tweets[..i], WithWords(words))
    {
      assert tweets[..i + 1][..i] == tweets[..i];
      var text := tweets[i].text;
      var matched := false;
      var j := 0;
      while j < |patterns|
        invariant 0 <= j <= |patterns|
        invariant !matched
        invariant forall k :: 0 <= k < j ==> !ContainsWord(text, patterns[k])
      {
        if ContainsWord(text, patterns[j]) {
          matched := true;
          break;
        }
        j := j + 1;
      }
      assert matched ==> patterns[j] in patterns;
      assert matched <==> Keeps(WithWords(words), tweets[i]);
      if matched {
        result := result + [tweets[i]];
      }
    }
    assert tweets[..|tweets|] == tweets;
  }

  /** A tweet is selected iff it is in the input and passes the filter. */
  lemma {:induction false} SelectMembership(tweets: seq<Tweet>, c: Criterion, t: Tweet)
    ensures t in Select(tweets, c) <==> t in tweets && Keeps(c, t)
    decreases |tweets|
  {
    if tweets != [] {
      var front := tweets[..|tweets| - 1];
      assert tweets == front + [tweets[|tweets| - 1]];
      SelectMembership(front, c, t);
    }
  }

  /** The result keeps the input order: it is a subsequence of the input. */
  lemma {:induction false} SelectIsSubsequence(tweets: seq<Tweet>, c: Criterion)
    ensures IsSubsequence(Select(tweets, c), tweets)
    decreases |tweets|
  {
    if tweets != [] {
      var front := tweets[..|tweets| - 1];
      SelectIsSubsequence(front, c);
      var r := Select(tweets, c);
      if Keeps(c, tweets[|tweets| - 1]) {
        assert r[..|r| - 1] == Select(front, c);
      }
    }
  }

  /** Filtering distributes over concatenation: each part is filtered on
      its own and the results are joined in order. */
  lemma {:induction false} SelectAppend(a: seq<Tweet>, b: seq<Tweet>, c: Criterion)
    ensures Select(a + b, c) == Select(a, c) + Select(b, c)
    decreases |b|
  {
    if b == [] {
      assert a + b == a;
    } else {
      var front := b[..|b| - 1];
      assert (a + b)[..|a + b| - 1] == a + front;
      SelectAppend(a, front, c);
    }
  }

  /** When no tweet passes, the result is empty. */
  lemma {:induction false} SelectNone(tweets: seq<Tweet>, c: Criterion)
    requires forall t :: t in tweets ==> !Keeps(c, t)
    ensures Select(tweets, c) == []
    decreases |tweets|
  {
    if tweets != [] {
      var front := tweets[..|tweets| - 1];
      assert forall t :: t in front ==> t in tweets;
      SelectNone(front, c);
    }
  }

  /** No words, or only empty words, select no tweet. */
  lemma NoWordsSelectNothing(tweets: seq<Tweet>, words: seq<string>)
    requires forall w :: w in words ==> w == ""
    ensures Select(tweets, WithWords(words)) == []
  {
    SelectNone(tweets, WithWords(words));
  }

  /** A bound is inclusive: a tweet at either end of the span is kept. */
  lemma SpanBoundsInclusive(t: Tweet, span: Timespan)
    requires t.timestamp == span.start || t.timestamp == span.end
    requires span.start <= span.end
    ensures Select([t], During(span)) == [t]
  {
    assert [t][..0] == [];
  }

  /** A partial-word occurrence does not match: when the text goes on with
      a word character right after (or right before) the occurrence of a
      word that ends (or starts) with a word character, there is no word
      boundary there. */
  lemma PartialWordNoMatch(text: string, w: string, i: int)
    requires 0 <= i && i + |w| <= |text| && |w| > 0
    requires EqualsIgnoreCase(text[i .. i + |w|], w)
    requires || (IsWordChar(w[|w| - 1]) && i + |w| < |text| && IsWordChar(text[i + |w|]))
             || (IsWordChar(w[0]) && 0 < i && IsWordChar(text[i - 1]))
    ensures !OccursAt(text, w, i)
  {
    var slice := text[i .. i + |w|];
    assert ToLower(slice)[0] == ToLower(w)[0];
    assert ToLower(slice)[|w| - 1] == ToLower(w)[|w| - 1];
    LowerCharFacts(slice[0]);
    LowerCharFacts(w[0]);
    LowerCharFacts(slice[|w| - 1]);
    LowerCharFacts(w[|w| - 1]);
  }

  /** A word next to punctuation, a space or an end of the text matches. */
  lemma WordNextToNonWordMatches(text: string, w: string, i: int)
    requires 0 <= i && i + |w| <= |text| && |w| > 0
    requires IsWordChar(w[0]) && IsWordChar(w[|w| - 1])
    requires EqualsIgnoreCase(text[i .. i + |w|], w)
    requires i == 0 || !IsWordChar(text[i - 1])
    requires i + |w| == |text| || !IsWordChar(text[i + |w|])
    ensures OccursAt(text, w, i)
    ensures ContainsWord(text, w)
  {
    var slice := text[i .. i + |w|];
    assert ToLower(slice)[0] == ToLower(w)[0];
    assert ToLower(slice)[|w| - 1] == ToLower(w)[|w| - 1];
    LowerCharFacts(slice[0]);
    LowerCharFacts(w[0]);
    LowerCharFacts(slice[|w| - 1]);
    LowerCharFacts(w[|w| - 1]);
    assert OccursAt(text, w, i);
  }

  /** One character that differs ignoring case rules out a match there. */
  lemma CharMismatch(text: string, w: string, i: int, k: int)
    requires 0 <= k < |w|
    requires 0 <= i && i + |w| <= |text|
    requires LowerChar(text[i + k]) != LowerChar(w[k])
    ensures !OccursAt(text, w, i)
  {
    assert ToLower(text[i .. i + |w|])[k] != ToLower(w)[k];
  }

  /** A word that ends in a word character and is followed by one in the
      text does not match there. */
  lemma WordGoesOn(text: string, w: string, i: int)
    requires 0 <= i && i + |w| < |text| && |w| > 0
    requires IsWordChar(w[|w| - 1]) && IsWordChar(text[i + |w|])
    ensures !OccursAt(text, w, i)
  {
    if EqualsIgnoreCase(text[i .. i + |w|], w) {
      PartialWordNoMatch(text, w, i);
    }
  }

  /** A text without the letter s (in either case) has no occurrence of
      "space" anywhere. */
  lemma NoLetterSNoSpace(text: string)
    requires forall k :: 0 <= k < |text| ==> text[k] != 's' && text[k] != 'S'
    ensures !ContainsWord(text, "space")
  {
    forall i | 0 <= i <= |text| - 5
      ensures !OccursAt(text, "space", i)
    {
      CharMismatch(text, "space", i, 0);
    }
  }

  /** The text of tweetB. */
  const SpaceXText := "SpaceX is launching today!"

  /** Its letters s: one at the start, one followed by a space. */
  lemma SpaceXLetters()
    ensures |SpaceXText| == 26
    ensures SpaceXText[5] == 'X' && SpaceXText[9] == ' '
    ensures forall k :: 0 <= k < |SpaceXText| && k != 0 && k != 8 ==>
      SpaceXText[k] != 's' && SpaceXText[k] != 'S'
  {
  }

  /** A text whose only letters s are at 0, followed by more than "pace"
      of word characters, and at 8, not followed by a 'p', has no whole
      word "space". */
  lemma NoSpaceBesidesTwoLetters(text: string)
    requires |text| > 9 && IsWordChar(text[5]) && text[9] != 'p' && text[9] != 'P'
    requires forall k :: 0 <= k < |text| && k != 0 && k != 8 ==> text[k] != 's' && text[k] != 'S'
    ensures !ContainsWord(text, "space")
  {
    var w := "space";
    forall i | 0 <= i <= |text| - |w|
      ensures !OccursAt(text, w, i)
    {
      if i == 0 {
        WordGoesOn(text, w, 0);
      } else if i == 8 {
        CharMismatch(text, w, i, 1);
      } else {
        CharMismatch(text, w, i, 0);
      }
    }
  }

  /** The whole text of tweetB has no whole word "space": at the start the
      word goes on, and the only other 's' is followed by a space. */
  lemma SpaceXTweetHasNoSpace()
    ensures !ContainsWord(SpaceXText, "space")
  {
    SpaceXLetters();
    NoSpaceBesidesTwoLetters(SpaceXText);
  }

  /** tweetA passes the filter for the word "space". */
  lemma SpaceExplorationKept(t: Tweet)
    requires t.text == "I love space exploration"
    ensures Keeps(WithWords(["space"]), t)
  {
    assert t.text[7..12] == "space";
    assert ToLower("space") == "space";
    WordNextToNonWordMatches(t.text, "space", 7);
    assert "space" in ["space"];
  }

  /** A tweet without a whole word "space" does not pass the filter for
      that word. */
  lemma NoSpaceNotKept(t: Tweet)
    requires !ContainsWord(t.text, "space")
    ensures !Keeps(WithWords(["space"]), t)
  {
    assert forall w :: w in ["space"] ==> w == "space";
  }

  /** Of three tweets, only the first passes: the result is that tweet. */
  lemma SelectFirstOfThree(a: Tweet, b: Tweet, c: Tweet, crit: Criterion)
    requires Keeps(crit, a) && !Keeps(crit, b) && !Keeps(crit, c)
    ensures Select([a, b, c], crit) == [a]
  {
    assert [a][..0] == [];
    assert Select([a], crit) == [a];
    assert [a, b][..1] == [a];
    assert Select([a, b], crit) == [a];
    assert [a, b, c][..2] == [a, b];
  }

  /** The text of tweetC. */
  const ArtText := "Check out artifact and art."

  /** tweetC has no letter s, so no "space" either. */
  lemma ArtTweetHasNoSpace()
    ensures !ContainsWord(ArtText, "space")
  {
    NoLetterSNoSpace(ArtText);
  }

  /** containing([tweetA, tweetB, tweetC], ["space"]) keeps only the tweet
      where "space" stands as a word of its own. */
  lemma SpaceTweetsSelected(a: Tweet, b: Tweet, c: Tweet)
    requires a.text == "I love space exploration"
    requires b.text == SpaceXText
    requires c.text == ArtText
    ensures Select([a, b, c], WithWords(["space"])) == [a]
  {
    SpaceExplorationKept(a);
    SpaceXTweetHasNoSpace();
    NoSpaceNotKept(b);
    ArtTweetHasNoSpace();
    NoSpaceNotKept(c);
    SelectFirstOfThree(a, b, c, WithWords(["space"]));
  }

  /** The text of the tweet with a shouted "SPACE". */
  const ShoutedText := "Hello, SPACE! (We love it)."

  /** "SPACE" between a space and '!' is the whole word "space". */
  lemma ShoutedSpaceMatches()
    ensures ContainsWord(ShoutedText, "space")
  {
    var text, w := ShoutedText, "space";
    assert text[7..12] == "SPACE";
    assert ToLower("SPACE") == "space";
    assert ToLower("space") == "space";
    WordNextToNonWordMatches(text, w, 7);
  }

  /** A tweet holding the whole word "space" passes the filter for it. */
  lemma SpaceWordKept(t: Tweet)
    requires ContainsWord(t.text, "space")
    ensures Keeps(WithWords(["space"]), t)
  {
    assert "space" in ["space"];
  }

  /** Of two tweets, only the first passes: the result is that tweet. */
  lemma SelectFirstOfTwo(a: Tweet, b: Tweet, crit: Criterion)
    requires Keeps(crit, a) && !Keeps(crit, b)
    ensures Select([a, b], crit) == [a]
  {
    assert [a][..0] == [];
    assert Select([a], crit) == [a];
    assert [a, b][..1] == [a];
  }

  /** containing([t, tweetB], ["space"]) keeps the shouted "SPACE" and drops
      "SpaceX". */
  lemma ShoutedTweetSelected(a: Tweet, b: Tweet)
    requires a.text == ShoutedText
    requires b.text == SpaceXText
    ensures Select([a, b], WithWords(["space"])) == [a]
  {
    ShoutedSpaceMatches();
    SpaceWordKept(a);
    SpaceXTweetHasNoSpace();
    NoSpaceNotKept(b);
    SelectFirstOfTwo(a, b, WithWords(["space"]));
  }
}
