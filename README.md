# Twitter analysis core, modelled in Dafny

The project models the three static utility classes of a small Java library that analyses lists of tweets:

- **Extract** finds the time span a list of tweets covers (`getTimespan`). It also finds the set of usernames the tweets @-mention (`getMentionedUsers`). A mention is an `@` that no username character precedes, followed by a maximal run of `[A-Za-z0-9_]`, lower-cased.
- **Filter** keeps, in input order, the tweets by one author (`writtenBy`, case-insensitive), the tweets inside a closed time span (`inTimespan`), and the tweets holding one of a list of words as a whole word (`containing`, case-insensitive).
- **SocialNetwork** guesses a follows graph from mentions (`guessFollowsGraph`). Every lower-cased author is a key, and its followees are the users it mentions, itself excepted. It then ranks every user of a graph by follower count, descending, with ties broken by `String.compareTo` (`influencers`).

Files:

- `strings.dfy` (module `Strings`): the ASCII parts of `java.lang.String` the core relies on.
- `tweets.dfy` (module `Tweets`): the `Tweet` and `Timespan` values and a `Result` type for the thrown `IllegalArgumentException`.
- `extract.dfy`, `filter.dfy`, `social_network.dfy`: one module per Java class.

Each Java method is modelled as a Dafny method with the same loops. Each is proved against a specification function: `Span`, `Mentions` (the usernames one text mentions), `MentionedUsers`, `Select`, `FollowsGraphOf`, `FollowerCounts`, `IsRanking`. The lemmas state the properties those functions have.

One point the Javadoc leaves open is settled as the code settles it: `containing` with a word list made only of empty strings drops every pattern, so it returns no tweets.

## Model

| member | source | states |
|---|---|---|
| Extract.Span | ps1/src/twitter/Extract.java:30-42 | fails exactly on the empty list; otherwise start <= end, every timestamp lies in [start, end], and both ends are timestamps of tweets in the list |
| Extract.Earliest | ps1/src/twitter/Extract.java:32-39 | the running minimum is a lower bound of all timestamps and is attained by some tweet |
| Extract.Latest | ps1/src/twitter/Extract.java:33-39 | the running maximum is an upper bound of all timestamps and is attained by some tweet |
| Extract.GetTimespan | ps1/src/twitter/Extract.java:30-42 | the min/max loop computes Span, including the error for no tweets |
| Extract.SpanIsMinimal | ps1/src/twitter/Extract.java:27-28 | every interval holding all timestamps contains the span (minimum length) |
| Extract.SpanOfOne | ps1/test/twitter/ExtractTest.java:66-78 | one tweet spans exactly its own instant |
| Extract.SpanWithin | ps1/src/twitter/Extract.java:30-42 | the span of a sub-collection lies within the span of the whole |
| Extract.SpanOrderIndependent | ps1/test/twitter/ExtractTest.java:87-101 | lists that are permutations of each other have the same span |
| Extract.RunEnd | ps1/src/twitter/Extract.java:61 | the greedy `[A-Za-z0-9_]+` run from j: every character in it is a username character and the next one is not |
| Extract.RunEndAt | ps1/src/twitter/Extract.java:61 | a run of username characters from j to a non-username character (or the end) ends exactly there |
| Extract.MentionOfRun | ps1/src/twitter/Extract.java:61-65 | an '@' after a non-username character, followed by a run up to k, is a mention whose name is that run lower-cased |
| Extract.LowerSliceIs | ps1/src/twitter/Extract.java:65 | a slice lower-cases to w when each of its characters lower-cases to the matching one of w |
| Extract.IsMentionAt | ps1/src/twitter/Extract.java:61 | the pattern matches at i: an '@' not preceded by a username character and followed by at least one |
| Extract.MentionAt | ps1/src/twitter/Extract.java:65 | `m.group(1).toLowerCase()`: the whole username run after the '@', lower-cased |
| Extract.MentionsBefore | ps1/src/twitter/Extract.java:64 | the lower-cased names of the mentions that start before position n, the ones `m.find()` has returned once the matcher has passed n |
| Extract.Mentions | ps1/src/twitter/Extract.java:62-66 | the set the `while (m.find())` loop adds for one text: the lower-cased name of every mention in it |
| Extract.MentionedUsers | ps1/src/twitter/Extract.java:49-57 | the usernames mentioned in the text of some tweet |
| Extract.FindMention | ps1/src/twitter/Extract.java:64 | Matcher.find: returns the first mention position at or after `from` and the end of its match, or reports that none exists |
| Extract.MentionsBeforeMatch | ps1/src/twitter/Extract.java:64-65 | a found match adds exactly its own name to the mentions seen so far |
| Extract.AddMentions | ps1/src/twitter/Extract.java:63-66 | the `while (m.find())` loop adds exactly the text's mentions to the set |
| Extract.GetMentionedUsers | ps1/src/twitter/Extract.java:59-70 | the result is the union of the mentions of all tweets |
| Extract.MentionedUsersAppend | ps1/src/twitter/Extract.java:62-67 | mentions of a concatenation are the union of those of the parts; no tweets give none; one tweet gives its text's mentions |
| Extract.MentionIsCanonical | ps1/src/twitter/Extract.java:61-65 | every returned name is non-empty, made of `[a-z0-9_]` only, and already lower-case |
| Extract.MentionIsMaximal | ps1/src/twitter/Extract.java:61 | a captured name is the whole run after the '@' and is not followed by a username character |
| Extract.MentionsDoNotOverlap | ps1/src/twitter/Extract.java:64 | a later mention starts after the previous match ends, so resuming the scan at a match's end misses none |
| Extract.EmbeddedAtIsIgnored | ps1/src/twitter/Extract.java:52-55 | an '@' preceded by a username character is no mention, and no mention captures the name after it |
| Extract.NoAtNoMentions | ps1/test/twitter/ExtractTest.java:139-143 | a text without '@' mentions nobody |
| Extract.RunEndIgnoresCase | ps1/src/twitter/Extract.java:61 | the username run ends at the same place whatever the letters' case |
| Extract.MentionsIgnoreCase | ps1/src/twitter/Extract.java:56-57 | texts equal ignoring case mention the same users |
| Extract.MentionsOfBob | ps1/src/twitter/Extract.java:56-57 | "@Bob" and "@BOB" both mention exactly "bob" |
| Extract.MentionsCollapseCase | ps1/test/twitter/ExtractTest.java:155-161 | "shoutout to @Carol804, and @carol804 again." mentions exactly "carol804" |
| Extract.NoMentionInAddress | ps1/test/twitter/ExtractTest.java:180-187 | "a@bob is not a mention but @bob is." mentions exactly "bob" |
| Strings.LowerCharFacts | ps1/src/twitter/Extract.java:65 | toLowerCase on a character keeps the username class and '@', is idempotent, and maps username characters into `[a-z0-9_]` |
| Strings.ToLowerIdempotent | ps1/src/twitter/SocialNetwork.java:65 | lower-casing keeps the length and is idempotent |
| Strings.ToLowerOfLowerWord | ps1/src/twitter/SocialNetwork.java:76 | a string of `[a-z0-9_]` is its own lower-case form |
| Strings.CompareToZero | ps1/src/twitter/SocialNetwork.java:132 | compareTo is 0 exactly on equal strings |
| Strings.CompareToAntisymmetric | ps1/src/twitter/SocialNetwork.java:132 | swapping compareTo's arguments negates the result |
| Strings.CompareToTransitive | ps1/src/twitter/SocialNetwork.java:132 | "compareTo is negative" is transitive |
| Strings.CompareTo | ps1/src/twitter/SocialNetwork.java:132 | `String.compareTo`: first differing character's difference, else the length difference |
| Strings.ToLower | ps1/src/twitter/Extract.java:65 | `String.toLowerCase` on ASCII |
| Strings.LowerChar | ps1/src/twitter/Extract.java:65 | lower-casing of one character, ASCII letters only |
| Strings.EqualsIgnoreCase | ps1/src/twitter/Filter.java:37 | `String.equalsIgnoreCase`: equal after lower-casing |
| Strings.IsWordChar | ps1/src/twitter/Extract.java:61 | the class `[A-Za-z0-9_]` |
| Filter.WrittenBy | ps1/src/twitter/Filter.java:31-42 | the result is Select(tweets, ByAuthor(username)): the tweets whose author equals the username ignoring case, in order |
| Filter.InTimespan | ps1/src/twitter/Filter.java:52-67 | the result is Select(tweets, During(timespan)): the tweets neither before the start nor after the end, in order |
| Filter.Patterns | ps1/src/twitter/Filter.java:90-93 | a word becomes a pattern exactly when it is in the list and non-empty |
| Filter.PatternsAppend | ps1/src/twitter/Filter.java:90-93 | the patterns keep the words' order: those of a joined list are the first part's followed by the second part's |
| Filter.Containing | ps1/src/twitter/Filter.java:78-114 | the result is Select(tweets, WithWords(words)): the tweets where some non-empty word occurs as a whole word ignoring case, in order; no words give no tweets |
| Filter.SelectMembership | ps1/src/twitter/Filter.java:29 | a tweet is in the result exactly when it is in the input and passes the filter ("all and only") |
| Filter.SelectIsSubsequence | ps1/src/twitter/Filter.java:49-50 | the result is a subsequence of the input, so input order is kept |
| Filter.SelectAppend | ps1/src/twitter/Filter.java:36-40 | filtering a concatenation is the concatenation of the filtered parts |
| Filter.SelectNone | ps1/test/twitter/FilterTest.java:48-53 | when no tweet passes, the result is empty |
| Filter.NoWordsSelectNothing | ps1/src/twitter/Filter.java:83-86 | an empty word list, or one of empty words only, selects nothing |
| Filter.SpanBoundsInclusive | ps1/src/twitter/Filter.java:61-62 | a tweet exactly at the start or the end of the span is kept |
| Filter.PartialWordNoMatch | ps1/src/twitter/Filter.java:89-92 | an occurrence inside a longer word (a username character right before or after) is not a whole-word match |
| Filter.WordNextToNonWordMatches | ps1/src/twitter/Filter.java:89-92 | an occurrence between non-word characters or text ends is a whole-word match |
| Filter.CharMismatch | ps1/src/twitter/Filter.java:92 | a character that differs ignoring case rules out a match at that position |
| Filter.WordGoesOn | ps1/src/twitter/Filter.java:92 | a word ending in a word character, followed in the text by another one, does not match there |
| Filter.NoLetterSNoSpace | ps1/src/twitter/Filter.java:92 | a text without the letter s has no occurrence of "space" |
| Filter.NoSpaceBesidesTwoLetters | ps1/test/twitter/FilterTest.java:108 | the shape of tweetB's text (an s at 0 inside a longer word, one at 8 not followed by p, no other s) rules out the whole word "space" |
| Filter.SpaceXTweetHasNoSpace | ps1/test/twitter/FilterTest.java:108 | tweetB's full text "SpaceX is launching today!" has no whole word "space" |
| Filter.SpaceExplorationKept | ps1/test/twitter/FilterTest.java:107 | tweetA ("I love space exploration") passes the filter for "space" |
| Filter.NoSpaceNotKept | ps1/src/twitter/Filter.java:101-108 | a tweet without the whole word "space" does not pass the filter for it |
| Filter.ArtTweetHasNoSpace | ps1/test/twitter/FilterTest.java:105-110 | tweetC's text "Check out artifact and art." has no whole word "space" |
| Filter.SelectFirstOfThree | ps1/src/twitter/Filter.java:95-113 | when of three tweets only the first passes, the result is that tweet alone |
| Filter.SpaceTweetsSelected | ps1/test/twitter/FilterTest.java:103-111 | containing([tweetA, tweetB, tweetC], ["space"]) is [tweetA] |
| Filter.IsBoundary | ps1/src/twitter/Filter.java:92 | `\b` at k: exactly one of the characters on either side is a word character, text ends counting as non-word |
| Filter.OccursAt | ps1/src/twitter/Filter.java:92 | `\b<w>\b` matches case-insensitively at i |
| Filter.ContainsWord | ps1/src/twitter/Filter.java:104 | `m.find()` succeeds: the word matches at some position |
| Filter.Keeps | ps1/src/twitter/Filter.java:37-108 | the three filter conditions: author equal ignoring case (:37), timestamp neither before start nor after end (:62), some non-empty word matches (:101-108) |
| Filter.Select | ps1/src/twitter/Filter.java:29 | the Javadoc's "all and only the tweets that pass, in the same order" |
| Filter.ShoutedSpaceMatches | ps1/test/twitter/FilterTest.java:115-118 | "SPACE" in "Hello, SPACE! (We love it)." matches "space" as a whole word |
| Filter.SpaceWordKept | ps1/src/twitter/Filter.java:101-108 | a tweet holding the whole word "space" passes the filter for ["space"] |
| Filter.SelectFirstOfTwo | ps1/src/twitter/Filter.java:95-113 | when of two tweets only the first passes, the result is that tweet alone |
| Filter.ShoutedTweetSelected | ps1/test/twitter/FilterTest.java:113-121 | containing([t, tweetB], ["space"]) is [t] for t's text "Hello, SPACE! (We love it)." |
| SocialNetwork.FolloweesAppend | ps1/src/twitter/SocialNetwork.java:71-80 | one more tweet adds its mentions other than its author to its author's followees, and nothing to anyone else's |
| SocialNetwork.GraphAppend | ps1/src/twitter/SocialNetwork.java:59-81 | one more tweet makes its lower-cased author a key and adds its mentions, minus the author, to the author's followees |
| SocialNetwork.AddFollowees | ps1/src/twitter/SocialNetwork.java:74-80 | the inner loop adds every lower-cased mentioned user other than the author to the author's set and changes nothing else |
| SocialNetwork.NewFolloweesOfMentions | ps1/src/twitter/SocialNetwork.java:71-77 | lower-casing the mentions again and dropping the author leaves the mentions other than the author |
| SocialNetwork.GuessFollowsGraph | ps1/src/twitter/SocialNetwork.java:47-84 | the graph built is FollowsGraphOf(tweets) |
| SocialNetwork.FollowsGraphOf | ps1/src/twitter/SocialNetwork.java:38-45 | the graph the tweets give evidence for: each lower-cased author maps to the users it mentions, itself excepted |
| SocialNetwork.Authors | ps1/src/twitter/SocialNetwork.java:63-68 | the keys `computeIfAbsent` creates: every author, lower-cased |
| SocialNetwork.Followees | ps1/src/twitter/SocialNetwork.java:71-79 | the followee set of author a: every user mentioned in a tweet by a, other than a |
| SocialNetwork.NewFollowees | ps1/src/twitter/SocialNetwork.java:74-79 | what the inner loop adds: the mentioned users, lower-cased, other than the author |
| SocialNetwork.GraphOfNoTweets | ps1/test/twitter/SocialNetworkTest.java:55-59 | no tweets give the empty graph |
| SocialNetwork.GraphKeys | ps1/src/twitter/SocialNetwork.java:65-68 | u is a key exactly when u is the lower-cased author of some tweet |
| SocialNetwork.GraphEdges | ps1/src/twitter/SocialNetwork.java:71-79 | a -> b exactly when a tweet by a mentions b and b is not a |
| SocialNetwork.GraphIsWellFormed | ps1/src/twitter/SocialNetwork.java:19-24 | no self-follows; keys are lower-case; followees are non-empty `[a-z0-9_]` names |
| SocialNetwork.GraphOfConcat | ps1/test/twitter/SocialNetworkTest.java:117-135 | keys and followee sets of the graph of a concatenation are the unions of the parts', so one author's tweets accumulate |
| SocialNetwork.GraphOrderIndependent | ps1/src/twitter/SocialNetwork.java:59-81 | permuted tweet lists give the same graph |
| SocialNetwork.FollowersStep | ps1/src/twitter/SocialNetwork.java:114-121 | one more key adds one follower to each of its followees, and none to anyone else |
| SocialNetwork.FollowedIffFollowee | ps1/src/twitter/SocialNetwork.java:117-119 | a user has a follower among some keys exactly when it is a followee of one of them |
| SocialNetwork.FolloweesStep | ps1/src/twitter/SocialNetwork.java:114-121 | one more key contributes its followees to the users counted |
| SocialNetwork.AddOneToEach | ps1/src/twitter/SocialNetwork.java:117-120 | each followee's count becomes getOrDefault(count, 0) + 1; other counts are unchanged |
| SocialNetwork.ZeroCounts | ps1/src/twitter/SocialNetwork.java:110-112 | every key, and nothing else, has count 0 |
| SocialNetwork.CountStep | ps1/src/twitter/SocialNetwork.java:114-121 | one iteration of the entry loop keeps "counts are the follower counts among the keys done" |
| SocialNetwork.CountedNone | ps1/src/twitter/SocialNetwork.java:110-112 | the all-zero map is the count among no keys |
| SocialNetwork.CountedAll | ps1/src/twitter/SocialNetwork.java:114-121 | once every key is done, the counts are FollowerCounts |
| SocialNetwork.CountKey | ps1/src/twitter/SocialNetwork.java:114-120 | one iteration of the entry loop, for a key still pending |
| SocialNetwork.CountFollowers | ps1/src/twitter/SocialNetwork.java:99-121 | followerCount maps exactly the keys and followees, each to the number of keys that follow it |
| SocialNetwork.FollowerCounts | ps1/src/twitter/SocialNetwork.java:86-88 | each user of the network (key or followee) maps to the number of keys that follow it |
| SocialNetwork.Users | ps1/src/twitter/SocialNetwork.java:110-125 | `followerCount.keySet()`, the "distinct Twitter usernames in followsGraph": every key and every followee |
| SocialNetwork.FollowerCount | ps1/src/twitter/SocialNetwork.java:110-121 | the count the two loops build for u: the number of keys whose followee set holds u |
| SocialNetwork.GetOrDefault | ps1/src/twitter/SocialNetwork.java:119 | `Map.getOrDefault` |
| SocialNetwork.IntegerCompare | ps1/src/twitter/SocialNetwork.java:131 | `Integer.compare`: the sign of x - y |
| SocialNetwork.CompareByInfluence | ps1/src/twitter/SocialNetwork.java:128-133 | the comparator lambda: count descending, then `compareTo` |
| SocialNetwork.Precedes | ps1/src/twitter/SocialNetwork.java:128-133 | u1 sorts strictly before u2 under the comparator |
| SocialNetwork.PrecedesIsStrictTotalOrder | ps1/src/twitter/SocialNetwork.java:128-133 | the comparator is irreflexive, asymmetric, total on distinct names, and transitive |
| SocialNetwork.NotPrecedesTransitive | ps1/src/twitter/SocialNetwork.java:128-133 | "does not sort after" is transitive |
| SocialNetwork.SwapDown | ps1/src/twitter/SocialNetwork.java:128 | exchanging two neighbours changes only those two, keeps the multiset and keeps names distinct |
| SocialNetwork.SwapKeepsDistinct | ps1/src/twitter/SocialNetwork.java:128 | exchanging two neighbours keeps names distinct |
| SocialNetwork.InsertDown | ps1/src/twitter/SocialNetwork.java:128-133 | moving one element into an ordered prefix extends the order and keeps the multiset |
| SocialNetwork.SortByInfluence | ps1/src/twitter/SocialNetwork.java:128-133 | the list is permuted so that no name comes after one it precedes under the comparator |
| SocialNetwork.KeysToList | ps1/src/twitter/SocialNetwork.java:125 | the list holds exactly the map's keys, each once |
| SocialNetwork.ComparatorRanks | ps1/src/twitter/SocialNetwork.java:129-132 | on the network's users, the comparator over the computed counts is "more followers, then smaller name" |
| SocialNetwork.Influencers | ps1/src/twitter/SocialNetwork.java:95-136 | the result lists every user of the network exactly once, by follower count descending, then compareTo ascending |
| SocialNetwork.IsRanking | ps1/src/twitter/SocialNetwork.java:92-93 | every distinct username of the network, once, in descending order of follower count (ties by name) |
| SocialNetwork.RanksAbove | ps1/src/twitter/SocialNetwork.java:128-133 | u comes before v: more followers, or as many and u smaller under `compareTo` |
| SocialNetwork.RanksAboveIsStrictTotalOrder | ps1/src/twitter/SocialNetwork.java:128-133 | the ranking order is irreflexive, asymmetric and total on distinct names |
| SocialNetwork.RankingUnique | ps1/src/twitter/SocialNetwork.java:92-93 | two lists that both rank the same users are equal: the output is determined by the graph |
| SocialNetwork.RankingOfEmptyGraph | ps1/test/twitter/SocialNetworkTest.java:61-66 | the empty graph ranks nobody |
| SocialNetwork.UnfollowedKeyCountsZero | ps1/src/twitter/SocialNetwork.java:110-112 | a key nobody follows has count 0 and is still one of the ranked users |
| SocialNetwork.RankingOfLoneUser | ps1/test/twitter/SocialNetworkTest.java:139-149 | a lone key without followees is the whole ranking |
| SocialNetwork.RankingOfSingleInfluencer | ps1/test/twitter/SocialNetworkTest.java:151-164 | with alice following bob and charlie following nobody, the ranking is bob, alice, charlie |
| SocialNetwork.TieExampleCounts | ps1/test/twitter/SocialNetworkTest.java:192-197 | in the graph a1 -> alice, b1 -> bob, alice and bob have one follower and a1 and b1 none |
| SocialNetwork.RankingBreaksTiesByName | ps1/test/twitter/SocialNetworkTest.java:192-206 | with a1 -> alice and b1 -> bob the ranking is alice, bob, a1, b1 |

## Left out

- `null` arguments, `null` tweets, authors, texts, mentions and followee sets: Dafny values cannot be null. So the `IllegalArgumentException` for null arguments in Filter is not modelled, and nor are the `continue`/empty-result branches for null in SocialNetwork and Filter.
- "Not modified by this method": all inputs are immutable Dafny values, so this holds by construction and is not stated separately.
- The regex engine: the two patterns are written out as predicates, a word-boundary predicate and a scan. Pattern compilation, `Pattern.quote` and the `(?i)` flag are not modelled as such.
- Character semantics are ASCII only: `toLowerCase`, `equalsIgnoreCase` and case-insensitive matching fold only `A`-`Z`. `\b` counts only `[A-Za-z0-9_]` as word characters, while some Java versions also count Unicode letters and digits.
- `String.compareTo` compares UTF-16 code units. The model compares Dafny characters, which differs for characters outside the Basic Multilingual Plane.
- `Instant` is an integer timestamp. Tweet ids are carried but not checked for being distinct.
- The `Tweet` and `Timespan` classes are plain values here; their constructors and their checks are not part of this model.
- HashMap and HashSet iteration order is an arbitrary choice (`:|`). The proofs hold for every such order, since the Java iteration order is unspecified.
- `Collections.singletonList(t)` is the sequence `[t]`.
- SocialNetwork.SortByInfluence: the stable merge sort behind `List.sort` is replaced by an insertion sort with the same contract, a permutation in comparator order. With distinct keys that result is unique (RankingUnique), so stability does not matter.
- SocialNetwork.CountFollowers: counts are unbounded integers. `Integer` overflow after 2^31 - 1 followers is not modelled.
