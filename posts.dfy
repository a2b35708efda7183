/** The blog-post queries of astro/src/utils/post.ts. Every query reads the blog
    collection; here the collection is the parameter `posts`, in the order the content
    loader returns it, and a post's publication date is its millisecond timestamp. */
module Posts {
  import opened Collections
  import opened Strings

  /** The front matter of one blog entry that the queries look at. */
  datatype Post = Post(category: string, tags: seq<string>, draft: bool, pubDate: int)

  /** One `{ tag, count }` entry of getTagsWithCount. */
  datatype TagCount = TagCount(tag: string, count: nat)

  predicate Published(p: Post) { !p.draft }

  function PubDate(p: Post): (d: int) { p.pubDate }

  function Count(e: TagCount): (n: int) { e.count }

  /** `posts.map((post) => post.data.category)` */
  function Categories(posts: seq<Post>): (r: seq<string>)
    ensures |r| == |posts|
    ensures forall c :: c in r <==> exists p :: p in posts && p.category == c
  {
    if posts == [] then []
    else
      assert posts == [posts[0]] + posts[1..];
      [posts[0].category] + Categories(posts[1..])
  }

  /** getCategories: every category used by some post, once each, in ascending order. */
  function GetCategories(posts: seq<Post>): (r: seq<string>)
    ensures Ascending(r)
    ensures forall c :: c in r <==> exists p :: p in posts && p.category == c
  {
    var categories := Dedupe(Categories(posts));
    SortSetAscending(categories);
    SortStrings(categories)
  }

  /** `posts.map((post) => post.data.tags).flat()`: every tag occurrence, post by post. */
  function AllTags(posts: seq<Post>): (r: seq<string>)
    ensures forall t :: t in r <==> exists p :: p in posts && t in p.tags
  {
    if posts == [] then []
    else
      assert posts == [posts[0]] + posts[1..];
      posts[0].tags + AllTags(posts[1..])
  }

  /** getTags: every tag used by some post, once each, in order of first use. */
  function GetTags(posts: seq<Post>): (r: seq<string>)
    ensures Distinct(r)
    ensures forall t :: t in r <==> exists p :: p in posts && t in p.tags
    ensures IsSubsequence(r, AllTags(posts))
    ensures FirstSeenOrder(r, AllTags(posts))
  {
    Dedupe(AllTags(posts))
  }

  /** The non-draft posts, latest first: getPosts() without a limit. */
  function Newest(posts: seq<Post>): (r: seq<Post>)
    ensures forall p :: multiset(r)[p] == if p.draft then 0 else multiset(posts)[p]
    ensures forall p :: p in r <==> p in posts && !p.draft
    ensures |r| == |Filter(posts, Published)|
    ensures SortedByKeyDesc(r, PubDate)
  {
    var published := Filter(posts, Published);
    var r := SortByKeyDesc(published, PubDate);
    assert |r| == |multiset(r)| == |published|;
    PermutationMembers(r, published);
    r
  }

  /** `Array.prototype.sort` is stable: non-draft posts with the same date keep the order
      in which the collection lists them. */
  lemma NewestStable(posts: seq<Post>)
    ensures KeepsTies(Newest(posts), Filter(posts, Published), PubDate)
  {
    SortByKeyDescStable(Filter(posts, Published), PubDate);
  }

  /** The only list that orders the non-draft posts latest first and keeps posts with the
      same date in the collection's order is `Newest(posts)`: the sort is stable. */
  lemma NewestIs(posts: seq<Post>, r: seq<Post>)
    requires SortedByKeyDesc(r, PubDate)
    requires KeepsTies(r, Filter(posts, Published), PubDate)
    ensures r == Newest(posts)
  {
    NewestStable(posts);
    SortedTiesUnique(r, Newest(posts), PubDate);
  }

  /** `Array.prototype.slice(0, end)`, for an integer or absent `end`: the first `end`
      elements, all of them when `end` is absent or too large, and all but the last
      `-end` when `end` is negative. */
  function SliceTo<T>(s: seq<T>, end: Option<int>): (r: seq<T>)
    ensures |r| <= |s| && r == s[..|r|]
    ensures end.None? ==> r == s
    ensures end.Some? && end.value >= 0 ==> |r| == Min(end.value, |s|)
    ensures end.Some? && end.value < 0 ==> |r| == Max(|s| + end.value, 0)
  {
    match end
    case None => s
    case Some(e) =>
      var n := if e >= 0 then Min(e, |s|) else Max(|s| + e, 0);
      s[..n]
  }

  /** getPosts(max): the `max` latest non-draft posts, or all of them without `max`. */
  function GetPosts(posts: seq<Post>, max: Option<int>): (r: seq<Post>)
    ensures |r| <= |Newest(posts)| && r == Newest(posts)[..|r|]
    ensures max.None? ==> r == Newest(posts)
    ensures max.Some? && max.value >= 0 ==> |r| == Min(max.value, |Filter(posts, Published)|)
    ensures max.Some? && max.value < 0 ==> |r| == Max(|Filter(posts, Published)| + max.value, 0)
    ensures forall p :: p in r ==> p in posts && !p.draft
    ensures SortedByKeyDesc(r, PubDate)
  {
    var r := SliceTo(Newest(posts), max);
    assert forall p :: p in r ==> p in Newest(posts);
    r
  }

  /** getPostByTag: the non-draft posts carrying `tag`, latest first. */
  function GetPostByTag(posts: seq<Post>, tag: string): (r: seq<Post>)
    ensures IsSubsequence(r, GetPosts(posts, None))
    ensures forall p :: p in r <==> p in posts && !p.draft && tag in p.tags
    ensures forall p :: multiset(r)[p] == if tag in p.tags then multiset(GetPosts(posts, None))[p] else 0
    ensures SortedByKeyDesc(r, PubDate)
  {
    var r := Filter(GetPosts(posts, None), (p: Post) => tag in p.tags);
    SubsequenceKeepsOrder(r, GetPosts(posts, None), PubDate);
    r
  }

  /** filterPostsByCategory: the non-draft posts whose lower-cased category is `category`,
      latest first. `category` itself is compared as given. */
  function FilterPostsByCategory(posts: seq<Post>, category: string): (r: seq<Post>)
    ensures IsSubsequence(r, GetPosts(posts, None))
    ensures forall p :: p in r <==> p in posts && !p.draft && Lower(p.category) == category
    ensures forall p :: multiset(r)[p] == if Lower(p.category) == category then multiset(GetPosts(posts, None))[p] else 0
    ensures SortedByKeyDesc(r, PubDate)
  {
    var r := Filter(GetPosts(posts, None), (p: Post) => Lower(p.category) == category);
    SubsequenceKeepsOrder(r, GetPosts(posts, None), PubDate);
    r
  }

  /** Since only the post's side is lower-cased, an argument holding an upper-case letter
      selects no post at all. */
  lemma UppercaseCategoryMatchesNothing(posts: seq<Post>, category: string, i: nat)
    requires i < |category| && IsUpper(category[i])
    ensures FilterPostsByCategory(posts, category) == []
  {
  }

  /** Sum of the counts of a list of entries. */
  function TotalCount(es: seq<TagCount>): (n: nat) {
    if es == [] then 0 else es[0].count + TotalCount(es[1..])
  }

  lemma {:induction false} TotalCountAppend(es: seq<TagCount>, e: TagCount)
    ensures TotalCount(es + [e]) == TotalCount(es) + e.count
  {
    if es != [] {
      assert (es + [e])[1..] == es[1..] + [e];
      TotalCountAppend(es[1..], e);
    }
  }

  lemma {:induction false} TotalCountInsert(e: TagCount, es: seq<TagCount>)
    requires SortedByKeyDesc(es, Count)
    ensures TotalCount(InsertByKeyDesc(e, es, Count)) == e.count + TotalCount(es)
  {
    if es != [] && Count(es[0]) > Count(e) {
      TotalCountInsert(e, es[1..]);
    }
  }

  /** Sorting by count neither loses nor invents occurrences. */
  lemma {:induction false} TotalCountSort(es: seq<TagCount>)
    ensures TotalCount(SortByKeyDesc(es, Count)) == TotalCount(es)
  {
    if es != [] {
      TotalCountSort(es[1..]);
      TotalCountInsert(es[0], SortByKeyDesc(es[1..], Count));
    }
  }

  /** `Object.entries(counts).map(([tag, count]) => ({ tag, count }))`, with the keys
      in the order they were first inserted. */
  function Entries(keys: seq<string>, counts: map<string, nat>): (r: seq<TagCount>)
    requires forall k :: k in keys ==> k in counts
    ensures |r| == |keys|
  {
    if keys == [] then [] else [TagCount(keys[0], counts[keys[0]])] + Entries(keys[1..], counts)
  }

  /** Entry `i` pairs the `i`-th key with its count. */
  lemma {:induction false} EntriesAt(keys: seq<string>, counts: map<string, nat>)
    requires forall k :: k in keys ==> k in counts
    ensures forall i :: 0 <= i < |keys| ==> Entries(keys, counts)[i] == TagCount(keys[i], counts[keys[i]])
  {
    if keys != [] {
      EntriesAt(keys[1..], counts);
    }
  }

  lemma {:induction false} EntriesAppend(keys: seq<string>, k: string, counts: map<string, nat>)
    requires forall k' :: k' in keys ==> k' in counts
    requires k in counts
    ensures Entries(keys + [k], counts) == Entries(keys, counts) + [TagCount(k, counts[k])]
  {
    if keys != [] {
      assert (keys + [k])[1..] == keys[1..] + [k];
      EntriesAppend(keys[1..], k, counts);
    }
  }

  /** Updating a key the list does not hold leaves its entries alone. */
  lemma {:induction false} EntriesFrame(keys: seq<string>, counts: map<string, nat>, t: string, n: nat)
    requires forall k :: k in keys ==> k in counts
    requires t !in keys
    ensures Entries(keys, counts[t := n]) == Entries(keys, counts)
  {
    if keys != [] {
      EntriesFrame(keys[1..], counts, t, n);
    }
  }

  /** Adding a fresh key with count one raises the total by one. */
  lemma TotalCountNewKey(keys: seq<string>, counts: map<string, nat>, t: string)
    requires forall k :: k in keys ==> k in counts
    requires t !in keys
    ensures forall k :: k in keys + [t] ==> k in counts[t := 1]
    ensures TotalCount(Entries(keys + [t], counts[t := 1])) == TotalCount(Entries(keys, counts)) + 1
  {
    EntriesFrame(keys, counts, t, 1);
    EntriesAppend(keys, t, counts[t := 1]);
    TotalCountAppend(Entries(keys, counts), TagCount(t, 1));
  }

  /** Bumping the count of one listed key raises the total by one. */
  lemma {:induction false} TotalCountBump(keys: seq<string>, counts: map<string, nat>, t: string)
    requires forall k :: k in keys ==> k in counts
    requires Distinct(keys) && t in keys
    ensures TotalCount(Entries(keys, counts[t := counts[t] + 1])) == TotalCount(Entries(keys, counts)) + 1
  {
    var bumped := counts[t := counts[t] + 1];
    assert Entries(keys, bumped) == [TagCount(keys[0], bumped[keys[0]])] + Entries(keys[1..], bumped);
    assert Entries(keys, counts) == [TagCount(keys[0], counts[keys[0]])] + Entries(keys[1..], counts);
    if keys[0] == t {
      assert t !in keys[1..];
      EntriesFrame(keys[1..], counts, t, counts[t] + 1);
    } else {
      TotalCountBump(keys[1..], counts, t);
    }
  }

  /** The dictionary `counts`, with its keys in insertion order, records the tags `seen`:
      the keys are the distinct tags seen, in the order of their first occurrence, each
      mapped to its number of occurrences, and the counts add up to the number of tags
      seen. */
  ghost predicate Tally(seen: seq<string>, counts: map<string, nat>, keys: seq<string>) {
    && Distinct(keys)
    && FirstSeenOrder(keys, seen)
    && (forall t :: t in counts <==> t in keys)
    && (forall t :: t in counts <==> t in seen)
    && (forall t :: t in counts ==> counts[t] == multiset(seen)[t])
    && TotalCount(Entries(keys, counts)) == |seen|
  }

  /** A tag seen before: its count goes up by one and the keys stay as they are. */
  lemma TallyBump(seen: seq<string>, counts: map<string, nat>, keys: seq<string>, t: string)
    requires Tally(seen, counts, keys) && t in counts
    ensures Tally(seen + [t], counts[t := counts[t] + 1], keys)
  {
    FirstSeenOrderExtend(keys, seen, t);
    assert multiset(seen + [t]) == multiset(seen) + multiset{t};
    TotalCountBump(keys, counts, t);
  }

  /** A new tag: it gets the count 1 and goes to the end of the keys. */
  lemma TallyNew(seen: seq<string>, counts: map<string, nat>, keys: seq<string>, t: string)
    requires Tally(seen, counts, keys) && t !in counts
    ensures Tally(seen + [t], counts[t := 1], keys + [t])
  {
    var seen', counts', keys' := seen + [t], counts[t := 1], keys + [t];
    FirstSeenOrderExtend(keys, seen, t);
    assert multiset(seen') == multiset(seen) + multiset{t};
    assert Distinct(keys') by {
      assert t !in keys;
    }
    assert forall k :: k in counts' ==> counts'[k] == multiset(seen')[k] by {
      assert multiset(seen)[t] == 0;
    }
    TotalCountNewKey(keys, counts, t);
  }

  /** The keys of the dictionary are `Array.from(new Set(seen))`: the same list `getTags`
      builds from the same tags. */
  lemma TallyKeys(seen: seq<string>, counts: map<string, nat>, keys: seq<string>)
    requires Tally(seen, counts, keys)
    ensures keys == Dedupe(seen)
  {
    FirstSeenUnique(keys, Dedupe(seen), seen);
  }

  /** The accumulator of getTagsWithCount's `reduce`: a dictionary from each tag seen to
      its number of occurrences, built by `acc[tag] = (acc[tag] || 0) + 1`, together with
      its keys in insertion order. */
  method CountTags(tags: seq<string>) returns (counts: map<string, nat>, keys: seq<string>)
    ensures Tally(tags, counts, keys)
    ensures keys == Dedupe(tags)
  {
    counts, keys := map[], [];
    ghost var seen: seq<string> := [];
    var i := 0;
    while i < |tags|
      invariant 0 <= i <= |tags| && seen == tags[..i]
      invariant Tally(seen, counts, keys)
    {
      var t := tags[i];
      if t in counts {
        TallyBump(seen, counts, keys, t);
        counts := counts[t := counts[t] + 1];
      } else {
        TallyNew(seen, counts, keys, t);
        counts := counts[t := 1];
        keys := keys + [t];
      }
      assert tags[..i + 1] == seen + [t];
      seen := seen + [t];
      i := i + 1;
    }
    assert seen == tags;
    TallyKeys(tags, counts, keys);
  }

  /** What `es` says about `tags`, in any order: each tag of `tags` exactly once, with
      its number of occurrences. */
  ghost predicate Describes(tags: seq<string>, es: seq<TagCount>) {
    && (forall i, j :: 0 <= i < j < |es| ==> es[i].tag != es[j].tag)
    && (forall t :: t in tags <==> exists i :: 0 <= i < |es| && es[i].tag == t)
    && (forall i :: 0 <= i < |es| ==> es[i].count == multiset(tags)[es[i].tag])
  }

  /** The entries of the finished dictionary describe the tags counted. */
  lemma EntriesDescribe(tags: seq<string>, counts: map<string, nat>, keys: seq<string>)
    requires Tally(tags, counts, keys)
    ensures Describes(tags, Entries(keys, counts))
  {
    EntriesAt(keys, counts);
    var es := Entries(keys, counts);
    forall t | t in tags ensures exists i :: 0 <= i < |es| && es[i].tag == t {
      var k :| 0 <= k < |keys| && keys[k] == t;
      assert es[k].tag == t;
    }
  }

  /** Reordering the entries, as the sort by count does, keeps what they describe. */
  lemma DescribesPermutation(tags: seq<string>, a: seq<TagCount>, b: seq<TagCount>)
    requires Describes(tags, a) && multiset(a) == multiset(b)
    ensures Describes(tags, b)
  {
    PermutationMembers(a, b);
    assert Distinct(a);
    PermutationKeepsDistinct(a, b);
    forall i | 0 <= i < |b| ensures exists k :: 0 <= k < |a| && a[k] == b[i] {
      assert b[i] in a;
    }
    forall i, j | 0 <= i < j < |b| ensures b[i].tag != b[j].tag {
      var k :| 0 <= k < |a| && a[k] == b[i];
      var l :| 0 <= l < |a| && a[l] == b[j];
      assert k != l;
    }
    forall t | t in tags ensures exists i :: 0 <= i < |b| && b[i].tag == t {
      var k :| 0 <= k < |a| && a[k].tag == t;
      assert a[k] in b;
      var i :| 0 <= i < |b| && b[i] == a[k];
    }
  }

  /** getTagsWithCount: every tag once, with its number of occurrences across all posts,
      largest count first. */
  method GetTagsWithCount(posts: seq<Post>) returns (r: seq<TagCount>)
    ensures forall i, j :: 0 <= i < j < |r| ==> r[i].tag != r[j].tag
    ensures forall t :: t in AllTags(posts) <==> exists i :: 0 <= i < |r| && r[i].tag == t
    ensures forall i :: 0 <= i < |r| ==> r[i].count == multiset(AllTags(posts))[r[i].tag]
    ensures TotalCount(r) == |AllTags(posts)|
    ensures forall i, j :: 0 <= i < j < |r| ==> r[i].count >= r[j].count
  {
    var tags := AllTags(posts);
    var counts, keys := CountTags(tags);
    var entries := Entries(keys, counts);
    r := SortByKeyDesc(entries, Count);
    EntriesDescribe(tags, counts, keys);
    DescribesPermutation(tags, entries, r);
    TotalCountSort(entries);
  }
}
