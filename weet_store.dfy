/**
 * The weet store: `idBST`, a unique-key index from weet id to weet; `dateBST`, the
 * descending-date index every listing walks in order; and `trendingBST`, a
 * unique-key index from hashtag to the `TrendingTopics` object counting it.
 */
module Weets {
  import opened Wrappers
  import opened Seqs
  import opened Recency
  import opened Orders
  import opened SortedMap
  import opened Queues
  import opened RedBlackTrees
  import opened Text
  import opened Ranking
  import opened Catalogs
  import opened Users

  /** The fields of a weet the store reads. */
  datatype Weet = Weet(id: int, userId: int, message: string, dateWeeted: int)

  function WeetId(w: Weet): int { w.id }

  function WeetDate(w: Weet): int { w.dateWeeted }

  /** The topic `addWeet` counts a weet under: its message's first hashtag, if any. */
  function Tag(w: Weet): Option<string>
  {
    FirstHashtag(w.message)
  }

  // ---------------------------------------------------------------------------
  // Topic counts.

  /** Lines 101-114 of `addWeet` on the counts: a new topic starts at 1, a known one
      goes up by 1, and a message without a hashtag changes nothing. */
  function Mention(counts: map<string, int>, tag: Option<string>): map<string, int>
  {
    if tag.None? then counts
    else counts[tag.value := if tag.value in counts then counts[tag.value] + 1 else 1]
  }

  /** The counts after mentioning the tags of `s`, from its last element to its first. */
  ghost function TopicCounts(s: seq<Weet>): map<string, int>
  {
    if s == [] then map[] else Mention(TopicCounts(s[1..]), Tag(s[0]))
  }

  /** The test "the first hashtag is `t`". */
  function TaggedWith(t: string): Weet -> bool
  {
    (w: Weet) => Tag(w) == Some(t)
  }

  /** What one mention does to the counts. */
  lemma MentionEffect(counts: map<string, int>, tag: Option<string>)
    ensures tag.None? ==> Mention(counts, tag) == counts
    ensures tag.Some? ==> Mention(counts, tag).Keys == counts.Keys + {tag.value}
    ensures tag.Some? ==> Mention(counts, tag)[tag.value] == if tag.value in counts then counts[tag.value] + 1 else 1
    ensures forall t :: t in counts && Some(t) != tag ==> Mention(counts, tag)[t] == counts[t]
  {
  }

  /** The order of two mentions does not matter. */
  lemma MentionsCommute(m: map<string, int>, a: Option<string>, b: Option<string>)
    ensures Mention(Mention(m, a), b) == Mention(Mention(m, b), a)
  {
    if a.Some? && b.Some? && a != b {
      assert Mention(Mention(m, a), b).Keys == Mention(Mention(m, b), a).Keys;
    }
  }

  /** Adding a weet to the date index mentions its tag once, wherever the weet lands. */
  lemma {:induction false} TopicCountsInsert(s: seq<Weet>, w: Weet)
    ensures TopicCounts(InsertNewest(s, w, WeetDate)) == Mention(TopicCounts(s), Tag(w))
  {
    if s == [] || WeetDate(s[0]) <= WeetDate(w) {
      assert ([w] + s)[1..] == s;
    } else {
      TopicCountsInsert(s[1..], w);
      var t := InsertNewest(s[1..], w, WeetDate);
      assert ([s[0]] + t)[1..] == t;
      MentionsCommute(TopicCounts(s[1..]), Tag(w), Tag(s[0]));
    }
  }

  /** A topic is counted exactly when some weet of `s` is tagged with it, and its
      count is the number of such weets. */
  lemma TopicCountsMeaning(s: seq<Weet>, t: string)
    ensures t in TopicCounts(s) <==> exists i :: 0 <= i < |s| && Tag(s[i]) == Some(t)
    ensures t in TopicCounts(s) ==> TopicCounts(s)[t] == |Filter(s, TaggedWith(t))| >= 1
  {
    TopicCountsKeys(s, t);
    TopicCountsFilter(s, t);
  }

  /** A topic is counted exactly when some weet is tagged with it. */
  lemma {:induction false} TopicCountsKeys(s: seq<Weet>, t: string)
    ensures t in TopicCounts(s) <==> exists i :: 0 <= i < |s| && Tag(s[i]) == Some(t)
  {
    if s != [] {
      TopicCountsKeys(s[1..], t);
      if exists i :: 0 <= i < |s[1..]| && Tag(s[1..][i]) == Some(t) {
        var i :| 0 <= i < |s[1..]| && Tag(s[1..][i]) == Some(t);
        assert Tag(s[i + 1]) == Some(t);
      }
      if exists i :: 0 <= i < |s| && Tag(s[i]) == Some(t) {
        var i :| 0 <= i < |s| && Tag(s[i]) == Some(t);
        if i > 0 {
          assert Tag(s[1..][i - 1]) == Some(t);
        }
      }
    }
  }

  /** A topic's count is the number of weets tagged with it, and 0 stands for absent. */
  lemma {:induction false} TopicCountsFilter(s: seq<Weet>, t: string)
    ensures |Filter(s, TaggedWith(t))| == if t in TopicCounts(s) then TopicCounts(s)[t] else 0
    ensures t in TopicCounts(s) ==> TopicCounts(s)[t] >= 1
  {
    if s != [] {
      TopicCountsFilter(s[1..], t);
      var f := TaggedWith(t);
      if f(s[0]) {
        assert Filter(s, f) == [s[0]] + Filter(s[1..], f);
      } else {
        assert Filter(s, f) == Filter(s[1..], f);
      }
    }
  }

  // ---------------------------------------------------------------------------
  // The store.

  /** One hashtag and the number of weets mentioning it. */
  class TrendingTopics {
    const topic: string
    var timesMentioned: int

    constructor (topic: string)
      ensures this.topic == topic && timesMentioned == 1
    {
      this.topic := topic;
      timesMentioned := 1;
    }

    method IncreaseTimesMentioned()
      modifies this
      ensures timesMentioned == old(timesMentioned) + 1
    {
      timesMentioned := timesMentioned + 1;
    }
  }

  /** The id and date indexes are valid and hold the same weets; `size` counts them. */
  ghost predicate Catalog(idBST: RedBlackBST<int, Weet>, dateBST: DateRedBlackBST<Weet>, size: int)
    reads idBST, dateBST
  {
    idBST.Valid() && dateBST.Valid() && dateBST.dateOf == WeetDate &&
    Indexed(idBST.Contents(), dateBST.Items(), WeetId) && size == |dateBST.Items()|
  }

  /** The topic index is valid, ordered by `String.compareTo`, holds exactly `topics`,
      and each counter is stored under its own topic. */
  ghost predicate TopicIndex(bst: RedBlackBST<string, TrendingTopics>, topics: map<string, TrendingTopics>)
    reads bst
  {
    bst.Valid() && bst.less == StringLess && bst.Contents() == topics &&
    forall t :: t in topics ==> topics[t].topic == t
  }

  /** Every topic with its counter's `timesMentioned`. */
  ghost function Counts(topics: map<string, TrendingTopics>): map<string, int>
    reads topics.Values
  {
    map t | t in topics :: topics[t].timesMentioned
  }

  /** The store's invariant over its fields: the id and date indexes agree, the topic
      index holds `topics`, and every counter counts the stored weets tagged with
      its topic. */
  ghost predicate StoreValid(idBST: RedBlackBST<int, Weet>, dateBST: DateRedBlackBST<Weet>, size: int,
                             trendingBST: RedBlackBST<string, TrendingTopics>, topics: map<string, TrendingTopics>)
    reads idBST, dateBST, trendingBST, topics.Values
  {
    Catalog(idBST, dateBST, size) && TopicIndex(trendingBST, topics) &&
    Counts(topics) == TopicCounts(dateBST.Items())
  }

  /** Adding a weet to the date index and mentioning its tag keeps every counter
      equal to the number of stored weets tagged with its topic. */
  lemma AddedValid(idBST: RedBlackBST<int, Weet>, dateBST: DateRedBlackBST<Weet>, size: int,
                   trendingBST: RedBlackBST<string, TrendingTopics>, topics: map<string, TrendingTopics>,
                   s0: seq<Weet>, weet: Weet)
    requires Catalog(idBST, dateBST, size) && TopicIndex(trendingBST, topics)
    requires dateBST.Items() == InsertNewest(s0, weet, WeetDate)
    requires Counts(topics) == Mention(TopicCounts(s0), Tag(weet))
    ensures StoreValid(idBST, dateBST, size, trendingBST, topics)
  {
    TopicCountsInsert(s0, weet);
  }

  /** Lines 92-114 of `addWeet` on the three indexes: the weet goes into the id and
      date indexes and its first hashtag, if any, is mentioned once; `topics'` is the
      topic index afterwards and the counted weets are one more than `size`. */
  method AddToIndexes(idBST: RedBlackBST<int, Weet>, dateBST: DateRedBlackBST<Weet>, size: int,
                      trendingBST: RedBlackBST<string, TrendingTopics>, ghost topics: map<string, TrendingTopics>, weet: Weet)
      returns (ghost topics': map<string, TrendingTopics>)
    requires StoreValid(idBST, dateBST, size, trendingBST, topics) && weet.id !in idBST.Contents()
    modifies idBST, dateBST, trendingBST, topics.Values
    ensures StoreValid(idBST, dateBST, size + 1, trendingBST, topics')
    ensures idBST.Contents() == old(idBST.Contents())[weet.id := weet]
    ensures dateBST.Items() == InsertNewest(old(dateBST.Items()), weet, WeetDate)
    ensures Counts(topics') == Mention(old(Counts(topics)), Tag(weet))
  {
    ghost var s0 := dateBST.Items();
    IndexWeet(idBST, dateBST, size, weet);
    topics' := CountTag(trendingBST, weet, topics);
    AddedValid(idBST, dateBST, size + 1, trendingBST, topics', s0, weet);
  }

  /** Lines 92-93 of `addWeet`: the two `put` calls for a weet with a new id. */
  method IndexWeet(idBST: RedBlackBST<int, Weet>, dateBST: DateRedBlackBST<Weet>, size: int, weet: Weet)
    requires Catalog(idBST, dateBST, size) && weet.id !in idBST.Contents()
    modifies idBST, dateBST
    ensures Catalog(idBST, dateBST, size + 1)
    ensures idBST.Contents() == old(idBST.Contents())[weet.id := weet]
    ensures dateBST.Items() == InsertNewest(old(dateBST.Items()), weet, WeetDate)
  {
    ghost var m0, s0 := idBST.Contents(), dateBST.Items();
    IndexedAdd(m0, s0, weet, WeetId, WeetDate);
    idBST.Put(weet.id, weet);
    dateBST.Put(weet);
  }

  /** Lines 97-114 of `addWeet`: the weet's first hashtag, if it has one, is mentioned
      once, and `topics'` is the topic index afterwards. */
  method CountTag(trendingBST: RedBlackBST<string, TrendingTopics>, weet: Weet, ghost topics: map<string, TrendingTopics>)
      returns (ghost topics': map<string, TrendingTopics>)
    requires TopicIndex(trendingBST, topics)
    modifies trendingBST, topics.Values
    ensures TopicIndex(trendingBST, topics')
    ensures Counts(topics') == Mention(old(Counts(topics)), Tag(weet))
  {
    var word := FirstHashtag(weet.message);
    topics' := topics;
    if word.Some? {
      topics' := MentionTopic(trendingBST, word.value, topics);
    }
  }

  /** Lines 103-113 of `addWeet`: count `word` once, creating its counter if it is new. */
  method MentionTopic(trendingBST: RedBlackBST<string, TrendingTopics>, word: string, ghost topics: map<string, TrendingTopics>)
      returns (ghost topics': map<string, TrendingTopics>)
    requires TopicIndex(trendingBST, topics)
    modifies trendingBST, topics.Values
    ensures TopicIndex(trendingBST, topics')
    ensures Counts(topics') == Mention(old(Counts(topics)), Some(word))
  {
    var trending := trendingBST.Get(word);
    if trending.None? {
      topics' := NewTopic(trendingBST, word, topics);
    } else {
      BumpTopic(trendingBST, word, trending.value, topics);
      topics' := topics;
    }
  }

  /** Lines 108-109: a fresh counter at 1, put into the topic index. */
  method NewTopic(trendingBST: RedBlackBST<string, TrendingTopics>, word: string, ghost topics: map<string, TrendingTopics>)
      returns (ghost topics': map<string, TrendingTopics>)
    requires TopicIndex(trendingBST, topics) && word !in topics
    modifies trendingBST
    ensures TopicIndex(trendingBST, topics')
    ensures Counts(topics') == old(Counts(topics))[word := 1]
  {
    ghost var c0 := Counts(topics);
    var newTopic := new TrendingTopics(word);
    trendingBST.Put(newTopic.topic, newTopic);
    topics' := topics[word := newTopic];
    assert Counts(topics') == c0[word := 1];
  }

  /** Line 112: `trending.increaseTimesMentioned()` on the stored counter. */
  method BumpTopic(trendingBST: RedBlackBST<string, TrendingTopics>, word: string, trending: TrendingTopics, ghost topics: map<string, TrendingTopics>)
    requires TopicIndex(trendingBST, topics) && word in topics && trending == topics[word]
    modifies trending
    ensures Counts(topics) == old(Counts(topics))[word := old(Counts(topics))[word] + 1]
  {
    trending.IncreaseTimesMentioned();
    forall t | t in topics && t != word ensures topics[t] != trending {
    }
  }

  class WeetStore {
    const idBST: RedBlackBST<int, Weet>
    const dateBST: DateRedBlackBST<Weet>
    const trendingBST: RedBlackBST<string, TrendingTopics>
    var size: int
    /** The topic index's content as a map from hashtag to its counter object. */
    ghost var topics: map<string, TrendingTopics>

    /** Every weet stored under its id. */
    ghost function ById(): map<int, Weet>
      reads this, idBST
    {
      idBST.Contents()
    }

    /** Every weet, newest first: what `inOrderDates` lists. */
    ghost function Weets(): seq<Weet>
      reads this, dateBST
    {
      dateBST.Items()
    }

    /** Every counted topic with its `timesMentioned`. */
    ghost function Trending(): map<string, int>
      reads this, topics.Values
    {
      Counts(topics)
    }

    /** The stored topics in ascending string order. */
    ghost function Topics(): seq<string>
      reads this, trendingBST
    {
      Keys(trendingBST.Entries())
    }

    /** The three indexes are valid, and every counter counts the stored weets tagged
        with its topic. */
    ghost predicate Valid()
      reads this, idBST, dateBST, trendingBST, topics.Values
    {
      StoreValid(idBST, dateBST, size, trendingBST, topics)
    }

    constructor ()
      ensures Valid() && ById() == map[] && Weets() == [] && Trending() == map[]
    {
      IntLessIsStrictTotalOrder();
      StringLessIsStrictTotalOrder();
      idBST := new RedBlackBST<int, Weet>(IntLess);
      dateBST := new DateRedBlackBST<Weet>(WeetDate);
      trendingBST := new RedBlackBST<string, TrendingTopics>(StringLess);
      size := 0;
      topics := map[];
    }

    /** The listing order of a valid store: newest first, no weet twice, and a weet is
        listed exactly when it is stored under its id. */
    lemma WeetsListed()
      requires Valid()
      ensures NonIncreasing(Weets(), WeetDate)
      ensures forall i, j :: 0 <= i < j < |Weets()| ==> Weets()[i].id != Weets()[j].id
      ensures forall w :: w in Weets() <==> w.id in ById() && ById()[w.id] == w
    {
      dateBST.ItemsNewestFirst();
    }

    /** In a valid store a topic is counted exactly when a stored weet is tagged with
        it, and its count is the number of stored weets so tagged. */
    lemma TrendingCounts(t: string)
      requires Valid()
      ensures t in Trending() <==> exists w :: w in Weets() && Tag(w) == Some(t)
      ensures t in Trending() ==> Trending()[t] == |Filter(Weets(), TaggedWith(t))| >= 1
    {
      TopicCountsMeaning(Weets(), t);
      if exists w :: w in Weets() && Tag(w) == Some(t) {
        var w :| w in Weets() && Tag(w) == Some(t);
        var i :| 0 <= i < |Weets()| && Weets()[i] == w;
      }
    }

    /** `addWeet(weet)`: a weet whose id is already stored is refused and nothing
        changes; otherwise it goes into both indexes, `size` grows by one and its first
        hashtag, if any, is mentioned once. */
    method AddWeet(weet: Weet) returns (ok: bool)
      requires Valid()
      modifies this, idBST, dateBST, trendingBST, topics.Values
      ensures Valid()
      ensures ok <==> weet.id !in old(ById())
      ensures !ok ==> ById() == old(ById()) && Weets() == old(Weets()) && size == old(size) && Trending() == old(Trending())
      ensures ok ==> ById() == old(ById())[weet.id := weet] && size == old(size) + 1
      ensures ok ==> Weets() == InsertNewest(old(Weets()), weet, WeetDate)
      ensures ok ==> Trending() == Mention(old(Trending()), Tag(weet))
    {
      var found := GetWeet(weet.id);
      if found.Some? {
        return false;
      }
      RecordWeet(weet);
      ok := true;
    }

    /** Lines 92-114 of `addWeet`: a weet with a new id goes into both indexes and its
        first hashtag, if any, is mentioned once. */
    method RecordWeet(weet: Weet)
      requires Valid() && weet.id !in ById()
      modifies this, idBST, dateBST, trendingBST, topics.Values
      ensures Valid()
      ensures ById() == old(ById())[weet.id := weet] && size == old(size) + 1
      ensures Weets() == InsertNewest(old(Weets()), weet, WeetDate)
      ensures Trending() == Mention(old(Trending()), Tag(weet))
    {
      ghost var t1 := AddToIndexes(idBST, dateBST, size, trendingBST, topics, weet);
      assert forall t :: t in t1 ==> t1[t] as object != this;
      topics, size := t1, size + 1;
    }

    /** `getTrending()`: with fewer than ten topics `None` (Java's `dequeue` throws
        before the `null` test); otherwise the first ten topics in string order,
        ranked most mentioned first. */
    method GetTrending() returns (r: Option<seq<string>>)
      requires Valid()
      ensures r.None? <==> |Topics()| < 10
      ensures r.Some? ==> |r.value| == 10 && forall x :: x in r.value <==> x in Topics()[..10]
      ensures r.Some? ==> forall i, j :: 0 <= i < j < 10 ==> r.value[i] != r.value[j]
      ensures r.Some? ==> forall i :: 0 <= i < 10 ==> r.value[i] in Trending()
      ensures r.Some? ==> forall i, j :: 0 <= i < j < 10 ==> Trending()[r.value[i]] >= Trending()[r.value[j]]
    {
      var trendingQueue := trendingBST.InorderTraversal();
      var trendingArray := DequeueTen(trendingQueue);
      if trendingArray.None? {
        return None;
      }
      TrendingCells();
      var topicArray := RankTopics(trendingArray.value, Trending(), Topics()[..10]);
      r := Some(topicArray);
    }

    /** The counters of the first ten topics, read in index order. */
    lemma TrendingCells()
      requires Valid() && |Topics()| >= 10
      ensures forall k :: 0 <= k < 10 ==>
                Topics()[k] in Trending() && CountOf(Values(trendingBST.Entries())[k]) == TopicCount(Topics()[k], Trending()[Topics()[k]])
      ensures forall i, j :: 0 <= i < j < 10 ==> Topics()[i] != Topics()[j]
    {
      var E := trendingBST.Entries();
      trendingBST.EntriesContents();
      forall i, j | 0 <= i < j < 10 ensures Topics()[i] != Topics()[j] {
        assert StringLess(E[i].0, E[j].0);
        StringLessIrreflexive(E[i].0);
      }
    }

    /** `getWeet(wid)`: the weet stored under `wid`, `None` where Java returns `null`. */
    method GetWeet(wid: int) returns (r: Option<Weet>)
      requires Valid()
      ensures r.None? <==> wid !in ById()
      ensures r.Some? ==> r.value == ById()[wid] && r.value.id == wid && r.value in Weets()
    {
      r := idBST.Get(wid);
    }

    /** `getWeets()`: every weet, newest first. */
    method GetWeets() returns (r: seq<Weet>)
      requires Valid()
      ensures r == Weets()
    {
      var weetQueue := dateBST.InOrder();
      r := QueueToArray(weetQueue);
    }

    /** `getWeetsByUser(usr)`: the weets by `usr`, newest first. */
    method GetWeetsByUser(usr: User) returns (r: seq<Weet>)
      requires Valid()
      ensures r == Filter(Weets(), ByUser(usr.id))
      ensures forall w :: w in r <==> w in Weets() && w.userId == usr.id
      ensures NonIncreasing(r, WeetDate)
    {
      var keep := ByUser(usr.id);
      var weetQueue := dateBST.InOrderWhere(keep);
      r := QueueToArray(weetQueue);
      Listed(keep, r);
    }

    /** `getWeetsContaining(query)`: the weets whose message contains `query`, newest
        first. */
    method GetWeetsContaining(query: string) returns (r: seq<Weet>)
      requires Valid()
      ensures r == Filter(Weets(), MessageContains(query))
      ensures forall w :: w in r <==> w in Weets() && Contains(w.message, query)
      ensures NonIncreasing(r, WeetDate)
    {
      var keep := MessageContains(query);
      var weetQueue := dateBST.InOrderWhere(keep);
      r := QueueToArray(weetQueue);
      Listed(keep, r);
    }

    /** `getWeetsOn(dateOn)`: the weets dated exactly `dateOn`, newest first. */
    method GetWeetsOn(dateOn: int) returns (r: seq<Weet>)
      requires Valid()
      ensures r == Filter(Weets(), DatedOn(dateOn))
      ensures forall w :: w in r <==> w in Weets() && w.dateWeeted == dateOn
      ensures NonIncreasing(r, WeetDate)
    {
      var keep := DatedOn(dateOn);
      var weetQueue := dateBST.InOrderWhere(keep);
      r := QueueToArray(weetQueue);
      Listed(keep, r);
    }

    /** `getWeetsBefore(dateBefore)`: the weets dated strictly before `dateBefore`,
        newest first. */
    method GetWeetsBefore(dateBefore: int) returns (r: seq<Weet>)
      requires Valid()
      ensures r == Filter(Weets(), DatedBefore(dateBefore))
      ensures forall w :: w in r <==> w in Weets() && w.dateWeeted < dateBefore
      ensures NonIncreasing(r, WeetDate)
    {
      var keep := DatedBefore(dateBefore);
      var weetQueue := dateBST.InOrderWhere(keep);
      r := QueueToArray(weetQueue);
      Listed(keep, r);
    }

    /** A filtered listing holds exactly the listed weets that pass, newest first. */
    lemma Listed(keep: Weet -> bool, r: seq<Weet>)
      requires Valid() && r == Filter(Weets(), keep)
      ensures forall w :: w in r <==> w in Weets() && keep(w)
      ensures NonIncreasing(r, WeetDate)
    {
      WeetsListed();
      forall w ensures w in r <==> w in Weets() && keep(w) {
        FilterContents(Weets(), keep, w);
      }
      FilterNewestFirst(Weets(), keep, WeetDate);
    }
  }

  /** A counter's topic and count, the two things `getTrending` reads of it. */
  datatype TopicCount = TopicCount(topic: string, times: int)

  function Times(c: TopicCount): int { c.times }

  function TopicOf(c: TopicCount): string { c.topic }

  function CountOf(tt: TrendingTopics): TopicCount
    reads tt
  {
    TopicCount(tt.topic, tt.timesMentioned)
  }

  /** The first loop of `getTrending`: dequeue ten counters into a fresh array, or
      `None` if the queue runs out first. */
  method DequeueTen(queue: Queue<TrendingTopics>) returns (r: Option<array<TopicCount>>)
    requires queue.Valid()
    modifies queue
    ensures r.None? <==> |old(queue.items)| < 10
    ensures r.Some? ==> fresh(r.value) && r.value.Length == 10
    ensures r.Some? ==> forall k :: 0 <= k < 10 ==> r.value[k] == CountOf(old(queue.items)[k])
  {
    ghost var V := queue.items;
    var trendingArray := new TopicCount[10](_ => TopicCount([], 0));
    for i := 0 to 10
      invariant queue.Valid() && i <= |V| && queue.items == V[i..]
      invariant forall k :: 0 <= k < i ==> trendingArray[k] == CountOf(V[k])
    {
      var item := queue.Dequeue();
      if item.None? {
        return None;
      }
      trendingArray[i] := CountOf(item.value);
    }
    r := Some(trendingArray);
  }

  /** `quickSort(trendingArray, 0, 9)` and the second loop: the topics of ten counters
      of distinct topics, most mentioned first. */
  method RankTopics(trendingArray: array<TopicCount>, ghost counts: map<string, int>, ghost first: seq<string>) returns (r: seq<string>)
    requires trendingArray.Length == 10 && |first| == 10
    requires forall k :: 0 <= k < 10 ==> first[k] in counts && trendingArray[k] == TopicCount(first[k], counts[first[k]])
    requires forall i, j :: 0 <= i < j < 10 ==> first[i] != first[j]
    modifies trendingArray
    ensures |r| == 10 && forall x :: x in r <==> x in first
    ensures forall i, j :: 0 <= i < j < 10 ==> r[i] != r[j]
    ensures forall i :: 0 <= i < 10 ==> r[i] in counts
    ensures forall i, j :: 0 <= i < j < 10 ==> counts[r[i]] >= counts[r[j]]
  {
    ghost var cells := trendingArray[..];
    QuickSort(trendingArray, 0, 9, Times);
    r := TopicNames(trendingArray);
    RankedTopics(cells, trendingArray[..], r, counts, first);
  }

  /** The second loop of `getTrending`: the topics of the ranked array, in order. */
  method TopicNames(trendingArray: array<TopicCount>) returns (r: seq<string>)
    ensures |r| == trendingArray.Length
    ensures forall k :: 0 <= k < |r| ==> r[k] == trendingArray[k].topic
  {
    r := [];
    for i := 0 to trendingArray.Length
      invariant |r| == i && forall k :: 0 <= k < i ==> r[k] == trendingArray[k].topic
    {
      r := r + [trendingArray[i].topic];
    }
  }

  /** Ranking the counters of distinct topics by count and keeping the topics lists
      each of those topics once, most mentioned first. */
  lemma RankedTopics(cells: seq<TopicCount>, sorted: seq<TopicCount>, r: seq<string>, counts: map<string, int>, first: seq<string>)
    requires |first| == |cells|
    requires forall k :: 0 <= k < |cells| ==> first[k] in counts && cells[k] == TopicCount(first[k], counts[first[k]])
    requires forall i, j :: 0 <= i < j < |first| ==> first[i] != first[j]
    requires multiset(cells) == multiset(sorted)
    requires SortedDescBetween(sorted, 0, |sorted| - 1, Times)
    requires |r| == |sorted| && forall k :: 0 <= k < |r| ==> r[k] == sorted[k].topic
    ensures forall x :: x in r <==> x in first
    ensures forall i, j :: 0 <= i < j < |r| ==> r[i] != r[j]
    ensures forall i :: 0 <= i < |r| ==> r[i] in counts
    ensures forall i, j :: 0 <= i < j < |r| ==> counts[r[i]] >= counts[r[j]]
  {
    assert forall i, j :: 0 <= i < j < |cells| ==> TopicOf(cells[i]) != TopicOf(cells[j]);
    PermutedKeys(cells, sorted, TopicOf);
    forall i | 0 <= i < |r| ensures r[i] in first && r[i] in counts && sorted[i].times == counts[r[i]] {
      assert sorted[i] in cells;
      var t :| 0 <= t < |cells| && cells[t] == sorted[i];
    }
    forall x | x in first ensures x in r {
      var t :| 0 <= t < |first| && first[t] == x;
      assert cells[t] in sorted;
      var i :| 0 <= i < |sorted| && sorted[i] == cells[t];
      assert r[i] == x;
    }
    forall i, j | 0 <= i < j < |r| ensures counts[r[i]] >= counts[r[j]] {
      assert Times(sorted[i]) >= Times(sorted[j]);
    }
  }

  /** The test of `inOrderUser`. */
  function ByUser(uid: int): Weet -> bool
  {
    (w: Weet) => w.userId == uid
  }

  /** The test of `inOrderContaining`. */
  function MessageContains(query: string): Weet -> bool
  {
    (w: Weet) => Contains(w.message, query)
  }

  /** The test of `inOrderDateOn`: `compareTo(date) == 0`. */
  function DatedOn(date: int): Weet -> bool
  {
    (w: Weet) => w.dateWeeted == date
  }

  /** The test of `inOrderDateBefore`: `compareTo(date) < 0`. */
  function DatedBefore(date: int): Weet -> bool
  {
    (w: Weet) => w.dateWeeted < date
  }
}
