/**
 * `src/lib/slack.ts`: link builders, labels and icons, the display name, the query search
 * (`searchChannels`) and the default ordering (`sortChannels`).
 */
module Slack {
  import opened Types
  import opened Strings
  import Sorting

  // ---------------------------------------------------------------------------------------------
  // Links

  const DeepLinkPrefix: string := "slack://channel?team="
  const WebUrlPrefix: string := "https://app.slack.com/client/"

  /** `slack://channel?team=<teamId>&id=<id>` */
  function GenerateSlackDeepLink(c: Channel): string {
    DeepLinkPrefix + c.teamId + "&id=" + c.id
  }

  /** The web client URL; both branches of the source build the same string. */
  function GenerateSlackWebUrl(c: Channel): string {
    if c.channelType == Im then WebUrlPrefix + c.teamId + "/" + c.id
    else WebUrlPrefix + c.teamId + "/" + c.id
  }

  /** Splits at the first `sep`. */
  function SplitAt(s: string, sep: char): Option<(string, string)> {
    if s == [] then None
    else if s[0] == sep then Some(([], s[1..]))
    else match SplitAt(s[1..], sep)
      case None => None
      case Some((a, b)) => Some(([s[0]] + a, b))
  }

  lemma {:induction false} SplitAtFirst(a: string, sep: char, b: string)
    requires sep !in a
    ensures SplitAt(a + [sep] + b, sep) == Some((a, b))
  {
    if a != [] {
      assert (a + [sep] + b)[1..] == a[1..] + [sep] + b;
      SplitAtFirst(a[1..], sep, b);
      assert [a[0]] + a[1..] == a;
    }
  }

  /** Reads the team and channel ids back out of a deep link. */
  function ParseDeepLink(url: string): Option<(string, string)> {
    if !(DeepLinkPrefix <= url) then None
    else match SplitAt(url[|DeepLinkPrefix|..], '&')
      case None => None
      case Some((team, rest)) => if "id=" <= rest then Some((team, rest[3..])) else None
  }

  /** Reads the team and channel ids back out of a web URL. */
  function ParseWebUrl(url: string): Option<(string, string)> {
    if !(WebUrlPrefix <= url) then None
    else match SplitAt(url[|WebUrlPrefix|..], '/')
      case None => None
      case Some((team, id)) => Some((team, id))
  }

  /** The deep link carries exactly the team and channel ids (when the team id has no `&`). */
  lemma DeepLinkRoundTrip(c: Channel)
    requires '&' !in c.teamId
    ensures ParseDeepLink(GenerateSlackDeepLink(c)) == Some((c.teamId, c.id))
  {
    var url := GenerateSlackDeepLink(c);
    assert url[|DeepLinkPrefix|..] == c.teamId + ['&'] + ("id=" + c.id);
    SplitAtFirst(c.teamId, '&', "id=" + c.id);
    assert ("id=" + c.id)[3..] == c.id;
  }

  /** The web URL carries exactly the team and channel ids (when the team id has no `/`). */
  lemma WebUrlRoundTrip(c: Channel)
    requires '/' !in c.teamId
    ensures ParseWebUrl(GenerateSlackWebUrl(c)) == Some((c.teamId, c.id))
  {
    var url := GenerateSlackWebUrl(c);
    assert url[|WebUrlPrefix|..] == c.teamId + ['/'] + c.id;
    SplitAtFirst(c.teamId, '/', c.id);
  }

  /** The web URL does not depend on the channel kind. */
  lemma WebUrlIgnoresType(c: Channel, t: ChannelType)
    ensures GenerateSlackWebUrl(c.(channelType := t)) == GenerateSlackWebUrl(c)
  {
  }

  // ---------------------------------------------------------------------------------------------
  // Icons, labels and the display name

  function GetChannelIcon(t: ChannelType): string {
    match t
    case PublicChannel => "\U{1F4AC}"
    case Group => "\U{1F512}"
    case Im => "\U{1F464}"
    case Mpim => "\U{1F465}"
  }

  function GetChannelTypeLabel(t: ChannelType): string {
    match t
    case PublicChannel => "Public Channel"
    case Group => "Private Channel"
    case Im => "Direct Message"
    case Mpim => "Group Message"
  }

  /** Every kind gets its own icon and its own label, never the fallback label "Channel". */
  lemma IconsAndLabelsDistinct(t: ChannelType, u: ChannelType)
    ensures t != u ==> GetChannelIcon(t) != GetChannelIcon(u)
    ensures t != u ==> GetChannelTypeLabel(t) != GetChannelTypeLabel(u)
    ensures GetChannelTypeLabel(t) != "Channel"
  {
  }

  /** The display name or, when it is absent or empty, the name. */
  function BaseName(c: Channel): string {
    OrElse(c.displayName, c.name)
  }

  function FormatChannelName(c: Channel): string {
    if Truthy(c.customAlias) then c.customAlias.value + " (" + BaseName(c) + ")"
    else BaseName(c)
  }

  /** With an alias the result is "alias (base)"; without one it is the base name; an empty alias
      counts as none. */
  lemma FormatChannelNameShape(c: Channel)
    ensures !Truthy(c.customAlias) ==> FormatChannelName(c) == BaseName(c)
    ensures Truthy(c.customAlias) ==>
      var a := c.customAlias.value;
      var r := FormatChannelName(c);
      a <= r && r[|a|..|a| + 2] == " (" && r[|a| + 2..|r| - 1] == BaseName(c) && r[|r| - 1] == ')'
    ensures FormatChannelName(c.(customAlias := Some(""))) == FormatChannelName(c.(customAlias := None))
    ensures c.name != [] ==> FormatChannelName(c) != []
  {
    if Truthy(c.customAlias) {
      var a := c.customAlias.value;
      var r := FormatChannelName(c);
      assert r == a + " (" + BaseName(c) + ")";
      assert r[|a| + 2..|r| - 1] == BaseName(c);
    }
  }

  // ---------------------------------------------------------------------------------------------
  // Matching

  /** The query lower-cased, then trimmed. */
  function NormalizeQuery(query: string): string {
    Trim(Lower(query))
  }

  /** The normalized query is empty exactly when the query is white space only. */
  lemma NormalizeQueryEmptyIff(query: string)
    ensures NormalizeQuery(query) == [] <==> AllSpace(query)
  {
    TrimEmptyIff(Lower(query));
    assert AllSpace(Lower(query)) <==> AllSpace(query) by {
      forall i | 0 <= i < |query| ensures IsSpace(Lower(query)[i]) <==> IsSpace(query[i]) {
      }
    }
  }

  /** The lower-cased values of the non-empty fields among `fs`, in order. */
  function LowerTruthy(fs: seq<Option<string>>): (ts: seq<string>)
    ensures |ts| <= |fs|
    ensures forall t :: t in ts <==> exists k :: 0 <= k < |fs| && Truthy(fs[k]) && t == Lower(fs[k].value)
  {
    if fs == [] then []
    else
      var rest := LowerTruthy(fs[1..]);
      assert forall k :: 1 <= k < |fs| ==> fs[k] == fs[1..][k - 1];
      (if Truthy(fs[0]) then [Lower(fs[0].value)] else []) + rest
  }

  /** The fields a query word is looked up in: name, displayName, customAlias and topic. */
  function SearchTargets(c: Channel): seq<string> {
    LowerTruthy([Some(c.name), c.displayName, c.customAlias, c.topic])
  }

  /** A word is found in one of the targets or in their space-joined combination. */
  predicate WordFound(targets: seq<string>, word: string) {
    InSomeTarget(targets, word) || Contains(JoinSpaced(targets), word)
  }

  predicate InSomeTarget(targets: seq<string>, word: string) {
    exists k :: 0 <= k < |targets| && Contains(targets[k], word)
  }

  /** The filter of `searchChannels`: every query word is found. */
  predicate Matches(c: Channel, words: seq<string>) {
    var targets := SearchTargets(c);
    forall k :: 0 <= k < |words| ==> WordFound(targets, words[k])
  }

  /** The same filter without the combined string. */
  predicate EveryWordInAField(c: Channel, words: seq<string>) {
    var targets := SearchTargets(c);
    forall k :: 0 <= k < |words| ==> InSomeTarget(targets, words[k])
  }

  /** Looking in the combined string admits nothing extra: query words hold no space, so they
      cannot straddle the separator the join inserts. */
  lemma CombinedTargetAddsNothing(c: Channel, words: seq<string>)
    requires forall k :: 0 <= k < |words| ==> words[k] != [] && NoSpace(words[k])
    ensures Matches(c, words) <==> EveryWordInAField(c, words)
  {
    var targets := SearchTargets(c);
    forall k | 0 <= k < |words|
      ensures WordFound(targets, words[k]) <==> InSomeTarget(targets, words[k])
    {
      var w := words[k];
      assert IsSpace(' ');
      ContainsJoinIff(targets, w);
    }
  }

  /** `channels.filter(...)`: keeps the matching channels, each as often as in the input. */
  function FilterMatching(channels: seq<Channel>, words: seq<string>): (r: seq<Channel>)
    ensures forall c :: multiset(r)[c] == if Matches(c, words) then multiset(channels)[c] else 0
  {
    Sorting.Filter(channels, c => Matches(c, words))
  }

  lemma FilterOfMatching(channels: seq<Channel>, words: seq<string>)
    requires forall i :: 0 <= i < |channels| ==> Matches(channels[i], words)
    ensures FilterMatching(channels, words) == channels
  {
    Sorting.FilterOfKept(channels, c => Matches(c, words));
  }

  /** The filter keeps input order: two matching channels come out in the order they went in. */
  lemma FilterKeepsOrder(channels: seq<Channel>, words: seq<string>, i: nat, j: nat)
    requires i < j < |channels|
    requires Matches(channels[i], words) && Matches(channels[j], words)
    ensures Sorting.Precedes(FilterMatching(channels, words), channels[i], channels[j])
  {
    Sorting.FilterKeepsOrder(channels, c => Matches(c, words), i, j);
  }

  // ---------------------------------------------------------------------------------------------
  // Scoring

  /** What one query word adds: 100 at the start of the name, 50 elsewhere in it, 0 if absent. */
  function Bonus(name: string, word: string): (b: int)
    ensures b == 100 <==> word <= name
    ensures b == 50 <==> Contains(name, word) && !(word <= name)
    ensures b == 0 <==> !Contains(name, word)
  {
    IndexOfZeroIffPrefix(name, word);
    var pos := IndexOf(name, word);
    if pos == 0 then 100 else if pos > 0 then 50 else 0
  }

  /** The score of `getScore`: word i contributes its bonus minus 10·i. */
  function Score(name: string, words: seq<string>): int {
    if words == [] then 0
    else Score(name, words[..|words| - 1]) + Bonus(name, words[|words| - 1]) - 10 * (|words| - 1)
  }

  /** The bonuses alone. */
  function BonusTotal(name: string, words: seq<string>): (t: int)
    ensures 0 <= t <= 100 * |words|
  {
    if words == [] then 0
    else BonusTotal(name, words[..|words| - 1]) + Bonus(name, words[|words| - 1])
  }

  /** The order penalties add up to 5·n·(n-1) whatever the name. */
  lemma {:induction false} ScoreIsBonusMinusPenalty(name: string, words: seq<string>)
    ensures Score(name, words) == BonusTotal(name, words) - 5 * |words| * (|words| - 1)
  {
    if words != [] {
      var m := |words| - 1;
      var prefix := words[..m];
      var b := Bonus(name, words[m]);
      ScoreIsBonusMinusPenalty(name, prefix);
      assert Score(name, words) == Score(name, prefix) + b - 10 * m;
      assert BonusTotal(name, words) == BonusTotal(name, prefix) + b;
      PenaltyStep(m);
    }
  }

  /** One more word adds 10·m to the penalty of m words. */
  lemma PenaltyStep(m: int)
    ensures 5 * (m + 1) * m == 5 * m * (m - 1) + 10 * m
  {
  }

  lemma ScoreBounds(name: string, words: seq<string>)
    ensures var n := |words|;
      -5 * n * (n - 1) <= Score(name, words) <= 100 * n - 5 * n * (n - 1)
  {
    ScoreIsBonusMinusPenalty(name, words);
    var n := |words|;
    var penalty := 5 * n * (n - 1);
    assert -5 * n * (n - 1) == -penalty;
    assert Score(name, words) == BonusTotal(name, words) - penalty;
    assert 0 <= BonusTotal(name, words) <= 100 * n;
  }

  /** The penalty is the same for every channel, so score differences are bonus differences. */
  lemma PenaltyCancels(a: string, b: string, words: seq<string>)
    ensures Score(a, words) - Score(b, words) == BonusTotal(a, words) - BonusTotal(b, words)
  {
    ScoreIsBonusMinusPenalty(a, words);
    ScoreIsBonusMinusPenalty(b, words);
  }

  /** `getScore`: the `forEach` loop accumulating the score of a channel. */
  method GetScore(c: Channel, words: seq<string>) returns (score: int)
    ensures score == Score(Lower(c.name), words)
  {
    var name := Lower(c.name);
    score := 0;
    for index := 0 to |words|
      invariant score == Score(name, words[..index])
    {
      var pos := IndexOf(name, words[index]);
      if pos == 0 {
        score := score + 100;
      } else if pos > 0 {
        score := score + 50;
      }
      score := score - index * 10;
      assert words[..index + 1][..index] == words[..index];
    }
    assert words[..|words|] == words;
  }

  // ---------------------------------------------------------------------------------------------
  // The search comparator

  /** 0 when the lower-cased name is the query, 1 when it starts with the query, 2 otherwise. */
  function SearchClass(nq: string, c: Channel): nat {
    var name := Lower(c.name);
    if name == nq then 0 else if nq <= name then 1 else 2
  }

  function CompareForSearch(nq: string, words: seq<string>, a: Channel, b: Channel): int {
    var aName := Lower(a.name);
    var bName := Lower(b.name);
    if aName == nq then -1
    else if bName == nq then 1
    else if nq <= aName then -1
    else if nq <= bName then 1
    else
      var aScore := Score(aName, words);
      var bScore := Score(bName, words);
      if aScore != bScore then bScore - aScore
      else CompareStrings(aName, bName)
  }

  function SearchComparator(nq: string, words: seq<string>): (Channel, Channel) -> int {
    (a: Channel, b: Channel) => CompareForSearch(nq, words, a, b)
  }

  /** A channel whose name is the query comes before one whose name is not. */
  lemma ExactMatchFirst(nq: string, words: seq<string>, a: Channel, b: Channel)
    requires SearchClass(nq, a) == 0 && SearchClass(nq, b) != 0
    ensures CompareForSearch(nq, words, a, b) < 0 && CompareForSearch(nq, words, b, a) > 0
  {
  }

  /** A name starting with the query comes before a name that neither equals nor starts with it. */
  lemma PrefixMatchBeforeOthers(nq: string, words: seq<string>, a: Channel, b: Channel)
    requires SearchClass(nq, a) == 1 && SearchClass(nq, b) == 2
    ensures CompareForSearch(nq, words, a, b) < 0 && CompareForSearch(nq, words, b, a) > 0
  {
  }

  /** Between two other channels, the higher score comes first and equal scores go by name. */
  lemma ScoreThenName(nq: string, words: seq<string>, a: Channel, b: Channel)
    requires SearchClass(nq, a) == 2 && SearchClass(nq, b) == 2
    ensures var sa, sb := Score(Lower(a.name), words), Score(Lower(b.name), words);
      CompareForSearch(nq, words, a, b) < 0 <==>
        sa > sb || (sa == sb && CompareStrings(Lower(a.name), Lower(b.name)) < 0)
    ensures CompareForSearch(nq, words, a, b) == 0 <==> Lower(a.name) == Lower(b.name)
  {
  }

  /** Two exact matches, or two prefix matches, each claim to come first: the comparator is not
      antisymmetric there. */
  lemma SearchComparatorNotAntisymmetric(nq: string, words: seq<string>, a: Channel, b: Channel)
    requires SearchClass(nq, a) == SearchClass(nq, b) < 2
    ensures CompareForSearch(nq, words, a, b) == -1 && CompareForSearch(nq, words, b, a) == -1
  {
  }

  /** The strict order the insertion sort effectively applies: class first, then (for class 2)
      higher score, then smaller name. */
  predicate SearchKeyLess(nq: string, words: seq<string>, x: Channel, y: Channel) {
    var cx, cy := SearchClass(nq, x), SearchClass(nq, y);
    var sx, sy := Score(Lower(x.name), words), Score(Lower(y.name), words);
    cx < cy || (cx == cy == 2 && (sx > sy || (sx == sy && CompareStrings(Lower(x.name), Lower(y.name)) < 0)))
  }

  /** `y` is moved behind `x` exactly when `x` is strictly before `y` in the key order. */
  lemma SearchMovesIffKeyLess(nq: string, words: seq<string>, x: Channel, y: Channel)
    ensures CompareForSearch(nq, words, y, x) > 0 <==> SearchKeyLess(nq, words, x, y)
  {
    CompareStringsAntisymmetric(Lower(x.name), Lower(y.name));
  }

  lemma SearchComparatorIsStrictWeakOrder(nq: string, words: seq<string>)
    ensures Sorting.Asymmetric(SearchComparator(nq, words))
    ensures Sorting.NegativelyTransitive(SearchComparator(nq, words))
  {
    var cmp := SearchComparator(nq, words);
    forall x, y ensures cmp(x, y) > 0 ==> cmp(y, x) <= 0 {
      SearchMovesIffKeyLess(nq, words, y, x);
      SearchMovesIffKeyLess(nq, words, x, y);
      CompareStringsAntisymmetric(Lower(x.name), Lower(y.name));
    }
    forall x, y, z ensures cmp(x, y) <= 0 && cmp(y, z) <= 0 ==> cmp(x, z) <= 0 {
      SearchMovesIffKeyLess(nq, words, y, x);
      SearchMovesIffKeyLess(nq, words, z, y);
      SearchMovesIffKeyLess(nq, words, z, x);
      if cmp(x, z) > 0 {
        KeyLessSplits(nq, words, z, y, x);
      }
    }
  }

  /** If `z` is before `x`, then any `y` is after `z` or before `x`. */
  lemma KeyLessSplits(nq: string, words: seq<string>, z: Channel, y: Channel, x: Channel)
    requires SearchKeyLess(nq, words, z, x)
    ensures SearchKeyLess(nq, words, z, y) || SearchKeyLess(nq, words, y, x)
  {
    var nz, ny, nx := Lower(z.name), Lower(y.name), Lower(x.name);
    CompareStringsAntisymmetric(nz, ny);
    CompareStringsAntisymmetric(ny, nx);
    if CompareStrings(nz, ny) > 0 && CompareStrings(ny, nx) > 0 {
      CompareStringsTransitive(nx, ny, nz);
      CompareStringsAntisymmetric(nz, nx);
    }
  }

  // ---------------------------------------------------------------------------------------------
  // searchChannels

  /** The list `searchChannels` returns. */
  function SearchResult(channels: seq<Channel>, query: string): seq<Channel> {
    var nq := NormalizeQuery(query);
    if nq == [] then channels
    else
      var words := Words(nq);
      Sorting.SortSpec(FilterMatching(channels, words), SearchComparator(nq, words))
  }

  /** `searchChannels`: filter, then sort a fresh array in place. */
  method SearchChannels(channels: seq<Channel>, query: string) returns (result: seq<Channel>)
    ensures result == SearchResult(channels, query)
  {
    var nq := NormalizeQuery(query);
    if nq == [] {
      return channels;
    }
    var words := Words(nq);
    var matching := FilterMatching(channels, words);
    result := Sorting.SortedCopy(matching, SearchComparator(nq, words));
  }

  /** An empty or white-space-only query returns the input as it is. */
  lemma EmptyQueryReturnsInput(channels: seq<Channel>, query: string)
    requires AllSpace(query)
    ensures SearchResult(channels, query) == channels
  {
    NormalizeQueryEmptyIff(query);
  }

  /** Otherwise the result holds exactly the channels in which every query word occurs in some
      non-empty lower-cased field, each as often as in the input. */
  lemma SearchKeepsExactlyTheMatches(channels: seq<Channel>, query: string)
    requires !AllSpace(query)
    ensures var words := Words(NormalizeQuery(query));
      forall c :: multiset(SearchResult(channels, query))[c] ==
        if EveryWordInAField(c, words) then multiset(channels)[c] else 0
  {
    var nq := NormalizeQuery(query);
    NormalizeQueryEmptyIff(query);
    var words := Words(nq);
    var filtered := FilterMatching(channels, words);
    Sorting.SortPermutes(filtered, SearchComparator(nq, words));
    forall c ensures Matches(c, words) <==> EveryWordInAField(c, words) {
      CombinedTargetAddsNothing(c, words);
    }
  }

  /** The order of the result: exact matches, then prefix matches, then the rest by descending
      score and ascending lower-cased name. */
  lemma SearchResultOrdered(channels: seq<Channel>, query: string)
    requires !AllSpace(query)
    ensures var nq := NormalizeQuery(query);
      var words := Words(nq);
      var r := SearchResult(channels, query);
      (forall i, j :: 0 <= i < j < |r| ==> SearchClass(nq, r[i]) <= SearchClass(nq, r[j]))
      && (forall i, j :: 0 <= i < j < |r| && SearchClass(nq, r[i]) == 2 && SearchClass(nq, r[j]) == 2 ==>
            var si, sj := Score(Lower(r[i].name), words), Score(Lower(r[j].name), words);
            si > sj || (si == sj && CompareStrings(Lower(r[i].name), Lower(r[j].name)) <= 0))
  {
    var nq := NormalizeQuery(query);
    NormalizeQueryEmptyIff(query);
    var words := Words(nq);
    var cmp := SearchComparator(nq, words);
    var r := SearchResult(channels, query);
    SearchComparatorIsStrictWeakOrder(nq, words);
    Sorting.SortOrdered(FilterMatching(channels, words), cmp);
    forall i, j | 0 <= i < j < |r| ensures !SearchKeyLess(nq, words, r[j], r[i]) {
      assert cmp(r[i], r[j]) <= 0;
      SearchMovesIffKeyLess(nq, words, r[j], r[i]);
    }
    forall i, j | 0 <= i < j < |r| && SearchClass(nq, r[i]) == 2 && SearchClass(nq, r[j]) == 2
      ensures CompareStrings(Lower(r[j].name), Lower(r[i].name)) >= 0 ==> CompareStrings(Lower(r[i].name), Lower(r[j].name)) <= 0
    {
      CompareStringsAntisymmetric(Lower(r[i].name), Lower(r[j].name));
    }
  }

  /** Matching channels that the key order does not separate, such as two names both starting
      with the query, keep their input order. */
  lemma SearchKeepsOrderOfTies(channels: seq<Channel>, query: string, i: nat, j: nat)
    requires NormalizeQuery(query) != []
    requires var words := Words(NormalizeQuery(query));
      i < j < |channels| && Matches(channels[i], words) && Matches(channels[j], words)
    requires !SearchKeyLess(NormalizeQuery(query), Words(NormalizeQuery(query)), channels[j], channels[i])
    ensures Sorting.Precedes(SearchResult(channels, query), channels[i], channels[j])
  {
    var nq := NormalizeQuery(query);
    var words := Words(nq);
    var m := FilterMatching(channels, words);
    FilterKeepsOrder(channels, words, i, j);
    var p, q :| 0 <= p < q < |m| && m[p] == channels[i] && m[q] == channels[j];
    SearchMovesIffKeyLess(nq, words, m[q], m[p]);
    Sorting.SortStable(m, SearchComparator(nq, words), p, q);
  }

  /** Searching the result again with the same query gives the same list. */
  lemma SearchIdempotent(channels: seq<Channel>, query: string)
    ensures SearchResult(SearchResult(channels, query), query) == SearchResult(channels, query)
  {
    var nq := NormalizeQuery(query);
    if nq != [] {
      var words := Words(nq);
      var cmp := SearchComparator(nq, words);
      var filtered := FilterMatching(channels, words);
      var r := Sorting.SortSpec(filtered, cmp);
      Sorting.SortPermutes(filtered, cmp);
      forall i | 0 <= i < |r| ensures Matches(r[i], words) {
        assert r[i] in multiset(r);
      }
      FilterOfMatching(r, words);
      SearchComparatorIsStrictWeakOrder(nq, words);
      Sorting.SortOrdered(filtered, cmp);
      Sorting.SortOfOrdered(r, cmp);
    }
  }

  /** A channel whose lower-cased name contains every word passes the filter. */
  lemma NameMatches(c: Channel, words: seq<string>)
    requires forall k :: 0 <= k < |words| ==> Contains(Lower(c.name), words[k])
    ensures Matches(c, words)
  {
    var targets := SearchTargets(c);
    forall k | 0 <= k < |words| ensures WordFound(targets, words[k]) {
      if c.name == [] {
        assert Contains([], words[k]);
      } else {
        assert targets[0] == Lower(c.name);
        assert Contains(targets[0], words[k]);
      }
    }
  }

  /** A lower-case query with no white space normalizes to itself and is one word. */
  lemma SingleWordQuery(q: string)
    requires q != [] && NoSpace(q) && Lower(q) == q
    ensures NormalizeQuery(q) == q && Words(q) == [q]
  {
    TrimWithoutEdges(q);
    WordsOfToken(q);
  }

  /** A single-word query such as "design" over ["team-design", "design-review", "design"]: the
      exact match comes first, then the prefix match, then the channel that only contains it. */
  lemma ExactPrefixContainsExample(q: string, t: Channel, r: Channel, d: Channel)
    requires q != [] && NoSpace(q) && Lower(q) == q
    requires SearchClass(q, d) == 0 && SearchClass(q, r) == 1 && SearchClass(q, t) == 2
    requires Contains(Lower(t.name), q)
    ensures SearchResult([t, r, d], q) == [d, r, t]
  {
    SingleWordQuery(q);
    AllThreeMatch(q, t, r, d);
    ThreeByClass(q, [q], t, r, d);
  }

  lemma AllThreeMatch(q: string, t: Channel, r: Channel, d: Channel)
    requires SearchClass(q, d) == 0 && SearchClass(q, r) == 1
    requires Contains(Lower(t.name), q)
    ensures FilterMatching([t, r, d], [q]) == [t, r, d]
  {
    IndexOfZeroIffPrefix(Lower(d.name), q);
    IndexOfZeroIffPrefix(Lower(r.name), q);
    NameMatches(d, [q]);
    NameMatches(r, [q]);
    NameMatches(t, [q]);
    FilterOfMatching([t, r, d], [q]);
  }

  lemma ThreeByClass(q: string, words: seq<string>, t: Channel, r: Channel, d: Channel)
    requires SearchClass(q, d) == 0 && SearchClass(q, r) == 1 && SearchClass(q, t) == 2
    ensures Sorting.SortSpec([t, r, d], SearchComparator(q, words)) == [d, r, t]
  {
    ExactMatchFirst(q, words, d, r);
    ExactMatchFirst(q, words, d, t);
    PrefixMatchBeforeOthers(q, words, r, t);
    Sorting.SortThreeReversed(t, r, d, SearchComparator(q, words));
  }

  /** Query words "alpha" and "beta": "alpha-beta" and "beta-alpha" both score 100 + 50 - 10, so
      the name decides between them. */
  lemma AlphaBetaScores()
    ensures Score("alpha-beta", ["alpha", "beta"]) == 140 && Score("beta-alpha", ["alpha", "beta"]) == 140
  {
    assert OccursAt("alpha-beta", "beta", 6);
    assert OccursAt("beta-alpha", "alpha", 5);
    ContainsIff("alpha-beta", "beta");
    ContainsIff("beta-alpha", "alpha");
    assert "alpha-beta"[0] != "beta"[0] && "beta-alpha"[0] != "alpha"[0];
    assert Bonus("alpha-beta", "alpha") == 100 && Bonus("alpha-beta", "beta") == 50;
    assert Bonus("beta-alpha", "beta") == 100 && Bonus("beta-alpha", "alpha") == 50;
    var words := ["alpha", "beta"];
    assert words[..1] == ["alpha"] && words[..1][..0] == [];
  }

  // ---------------------------------------------------------------------------------------------
  // sortChannels

  /** channel < group < im < mpim */
  function TypePriority(c: Channel): int {
    match c.channelType
    case PublicChannel => 0
    case Group => 1
    case Im => 2
    case Mpim => 3
  }

  function CompareDefault(a: Channel, b: Channel): int {
    var typeDiff := TypePriority(a) - TypePriority(b);
    if typeDiff != 0 then typeDiff
    else if a.lastActivity.Some? && b.lastActivity.Some? then b.lastActivity.value - a.lastActivity.value
    else CompareStrings(a.name, b.name)
  }

  /** The list `sortChannels` returns. */
  function DefaultOrder(channels: seq<Channel>): seq<Channel> {
    Sorting.SortSpec(channels, CompareDefault)
  }

  /** `sortChannels`: sort a copy of the list in place. */
  method SortChannels(channels: seq<Channel>) returns (result: seq<Channel>)
    ensures result == DefaultOrder(channels)
  {
    result := Sorting.SortedCopy(channels, CompareDefault);
  }

  /** Within one kind: both timestamps present means the more recent first, and equal timestamps
      tie with no fall-back to the name; otherwise the names decide. */
  lemma DefaultComparatorWithinType(a: Channel, b: Channel)
    requires a.channelType == b.channelType
    ensures a.lastActivity.Some? && b.lastActivity.Some? ==>
      (CompareDefault(a, b) < 0 <==> a.lastActivity.value > b.lastActivity.value)
      && (CompareDefault(a, b) == 0 <==> a.lastActivity.value == b.lastActivity.value)
    ensures !(a.lastActivity.Some? && b.lastActivity.Some?) ==>
      (CompareDefault(a, b) < 0 <==> CompareStrings(a.name, b.name) < 0)
      && (CompareDefault(a, b) == 0 <==> a.name == b.name)
  {
  }

  /** Timestamps and names can disagree, so the default comparator is not transitive. */
  lemma DefaultComparatorNotTransitive()
    ensures exists x, y, z :: CompareDefault(x, y) < 0 && CompareDefault(y, z) < 0 && CompareDefault(z, x) < 0
  {
    var x := Channel("1", "z", None, "T", PublicChannel, None, None, None, Some(2), None);
    var y := Channel("2", "a", None, "T", PublicChannel, None, None, None, Some(1), None);
    var z := Channel("3", "m", None, "T", PublicChannel, None, None, None, None, None);
    assert CompareDefault(x, y) < 0;
    assert CompareDefault(y, z) < 0;
    assert CompareDefault(z, x) < 0;
  }

  /** The default order is a permutation of the input, grouped by kind in priority order, and
      every neighbouring pair is in comparator order. */
  lemma DefaultOrderProperties(channels: seq<Channel>)
    ensures multiset(DefaultOrder(channels)) == multiset(channels)
    ensures var r := DefaultOrder(channels);
      forall i, j :: 0 <= i < j < |r| ==> TypePriority(r[i]) <= TypePriority(r[j])
    ensures var r := DefaultOrder(channels);
      forall i :: 0 <= i < |r| - 1 ==> CompareDefault(r[i], r[i + 1]) <= 0
  {
    Sorting.SortPermutes(channels, CompareDefault);
    assert Sorting.RankFirst(CompareDefault, TypePriority);
    Sorting.SortGrouped(channels, CompareDefault, TypePriority);
    forall x, y ensures CompareDefault(x, y) > 0 ==> CompareDefault(y, x) <= 0 {
      CompareStringsAntisymmetric(x.name, y.name);
    }
    Sorting.SortAdjacentOrdered(channels, CompareDefault);
  }

  /** Channels of one kind with the same activity time keep their input order. */
  lemma DefaultOrderKeepsTies(channels: seq<Channel>, i: nat, j: nat)
    requires i < j < |channels| && channels[i].channelType == channels[j].channelType
    requires channels[i].lastActivity.Some? && channels[i].lastActivity == channels[j].lastActivity
    ensures Sorting.Precedes(DefaultOrder(channels), channels[i], channels[j])
  {
    Sorting.SortStable(channels, CompareDefault, i, j);
  }
}
