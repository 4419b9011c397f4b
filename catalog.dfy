/** The WordPress records the plugin reads and writes: attachment posts,
    post meta keyed by (post id, meta key), attachment metadata with its
    derived sizes, and the batch selection query of bulk_optimize_images
    as a filter, a sort by descending ID and a LIMIT/OFFSET window. */
module Catalog {
  import opened Php
  import opened Storage

  /** A row of wp_posts with the attached file (get_attached_file) folded in. */
  datatype Post = Post(id: int, postType: string, mimeType: string, file: Option<Path>)

  /** Post meta: update_post_meta writes one value per (post, key). */
  type Meta = map<(int, string), PhpValue>

  const OptimizedKey: string := "_slimsnap_optimized"
  const OriginalSizeKey: string := "_slimsnap_original_size"
  const OptimizedSizeKey: string := "_slimsnap_optimized_size"
  const SavingsKey: string := "_slimsnap_savings_percent"
  const SettingsKey: string := "_slimsnap_settings"

  /** The five meta keys an optimisation writes and a revert deletes. */
  function SlimSnapKeys(): set<string> {
    {OptimizedKey, OriginalSizeKey, OptimizedSizeKey, SavingsKey, SettingsKey}
  }

  /** One entry of $metadata['sizes']: a derived image size. */
  datatype SizeEntry = SizeEntry(name: string, file: string, filesize: Option<int>)

  /** wp_get_attachment_metadata(): the main file's size and, when the
      'sizes' entry is present and an array, the derived sizes. */
  datatype AttachmentMetadata = AttachmentMetadata(filesize: Option<int>, sizes: Option<seq<SizeEntry>>)

  predicate UniqueIds(posts: seq<Post>) {
    forall i, j :: 0 <= i < j < |posts| ==> posts[i].id != posts[j].id
  }

  /** get_attached_file($id): the file of the post with that ID; None when
      there is no such post or it has no file. With distinct IDs, the post
      with that ID is the one whose file is returned. */
  function AttachedFile(posts: seq<Post>, id: int): (file: Option<Path>)
    ensures file.Some? ==> exists i :: 0 <= i < |posts| && posts[i].id == id && posts[i].file == file
    ensures (forall i :: 0 <= i < |posts| ==> posts[i].id != id) ==> file.None?
    ensures UniqueIds(posts) ==> forall i :: 0 <= i < |posts| && posts[i].id == id ==> file == posts[i].file
  {
    if posts == [] then None
    else if posts[0].id == id then posts[0].file
    else
      assert UniqueIds(posts) ==> UniqueIds(posts[1..]) by {
        if UniqueIds(posts) {
          forall i, j | 0 <= i < j < |posts[1..]| ensures posts[1..][i].id != posts[1..][j].id {
            assert posts[1..][i] == posts[i + 1] && posts[1..][j] == posts[j + 1];
          }
        }
      }
      var rest := AttachedFile(posts[1..], id);
      assert forall i :: 1 <= i < |posts| ==> posts[i] == posts[1..][i - 1];
      assert rest.Some? ==> exists i :: 1 <= i < |posts| && posts[i].id == id && posts[i].file == rest by {
        if rest.Some? {
          var i :| 0 <= i < |posts[1..]| && posts[1..][i].id == id && posts[1..][i].file == rest;
          assert posts[i + 1] == posts[1..][i];
        }
      }
      rest
  }

  /** The meta with the five SlimSnap keys of one post deleted. */
  function WithoutSlimSnapMeta(meta: Meta, id: int): (r: Meta)
    ensures forall k :: k in SlimSnapKeys() ==> (id, k) !in r
    ensures forall key :: key in meta && (key.0 != id || key.1 !in SlimSnapKeys()) ==> key in r && r[key] == meta[key]
    ensures forall key :: key in r ==> key in meta
  {
    meta - set k | k in SlimSnapKeys() :: (id, k)
  }

  /** post_mime_type LIKE 'image/%'. */
  predicate IsImageMime(mime: string) {
    |mime| >= 6 && mime[..6] == "image/"
  }

  /** The WHERE clause of the batch query for one post: an image
      attachment that is not flagged as optimised, or whose stored
      settings do not match the requested ones. `matches` stands for the
      LIKE test against the serialised '_slimsnap_settings' value. */
  predicate IsCandidate(p: Post, meta: Meta, matches: (PhpValue, int, string) -> bool,
                        quality: int, compressionType: string)
  {
    && p.postType == "attachment"
    && IsImageMime(p.mimeType)
    && ((p.id, OptimizedKey) !in meta
        || !((p.id, SettingsKey) in meta && matches(meta[(p.id, SettingsKey)], quality, compressionType)))
  }

  /** The IDs of the candidate posts, in table order. */
  function CandidateIds(posts: seq<Post>, meta: Meta, matches: (PhpValue, int, string) -> bool,
                        quality: int, compressionType: string): (ids: seq<int>)
    ensures forall id :: id in ids <==>
      exists i :: 0 <= i < |posts| && posts[i].id == id && IsCandidate(posts[i], meta, matches, quality, compressionType)
    ensures |ids| <= |posts|
  {
    if posts == [] then []
    else
      var rest := CandidateIds(posts[1..], meta, matches, quality, compressionType);
      assert forall id :: (exists i :: 1 <= i < |posts| && posts[i].id == id && IsCandidate(posts[i], meta, matches, quality, compressionType))
                          ==> id in rest by {
        forall id | exists i :: 1 <= i < |posts| && posts[i].id == id && IsCandidate(posts[i], meta, matches, quality, compressionType)
          ensures id in rest
        {
          var i :| 1 <= i < |posts| && posts[i].id == id && IsCandidate(posts[i], meta, matches, quality, compressionType);
          assert posts[1..][i - 1] == posts[i];
        }
      }
      if IsCandidate(posts[0], meta, matches, quality, compressionType) then [posts[0].id] + rest else rest
  }

  predicate Descending(s: seq<int>) {
    forall i, j :: 0 <= i < j < |s| ==> s[i] >= s[j]
  }

  /** Inserts x into a descending sequence. */
  function InsertDescending(x: int, s: seq<int>): (r: seq<int>)
    requires Descending(s)
    ensures Descending(r) && multiset(r) == multiset(s) + multiset{x}
  {
    if s == [] || x >= s[0] then [x] + s
    else
      var tail := InsertDescending(x, s[1..]);
      assert s == [s[0]] + s[1..];
      InsertStep(s, x, tail);
      [s[0]] + tail
  }

  /** Putting the head of a descending sequence back in front of its tail
      with x inserted, x being below the head, gives a descending sequence
      holding s and x. */
  lemma InsertStep(s: seq<int>, x: int, tail: seq<int>)
    requires s != [] && Descending(s) && x < s[0]
    requires Descending(tail) && multiset(tail) == multiset(s[1..]) + multiset{x}
    ensures Descending([s[0]] + tail)
    ensures multiset([s[0]] + tail) == multiset(s) + multiset{x}
  {
    forall k | 0 <= k < |tail|
      ensures tail[k] <= s[0]
    {
      assert tail[k] in multiset(tail);
      if tail[k] != x {
        assert tail[k] in multiset(s[1..]);
        var j :| 0 <= j < |s[1..]| && s[1..][j] == tail[k];
        assert s[j + 1] == tail[k];
      }
    }
    assert s == [s[0]] + s[1..];
  }

  /** ORDER BY ID DESC. */
  function SortDescending(s: seq<int>): (r: seq<int>)
    ensures Descending(r) && multiset(r) == multiset(s)
  {
    if s == [] then []
    else
      assert s == [s[0]] + s[1..];
      InsertDescending(s[0], SortDescending(s[1..]))
  }

  /** LIMIT limit OFFSET offset. A negative value makes the query an SQL
      error, for which wpdb returns no rows. */
  function Window(s: seq<int>, offset: int, limit: int): (r: seq<int>)
    ensures offset < 0 || limit < 0 ==> r == []
    ensures 0 <= offset && 0 <= limit ==>
      |r| == Max(0, Min(limit, |s| - offset)) &&
      forall k :: 0 <= k < |r| ==> r[k] == s[offset + k]
  {
    if offset < 0 || limit < 0 || offset >= |s| then []
    else if offset + limit >= |s| then s[offset..]
    else s[offset..offset + limit]
  }

  /** The IDs bulk_optimize_images works on. */
  function SelectBatch(posts: seq<Post>, meta: Meta, matches: (PhpValue, int, string) -> bool,
                       quality: int, compressionType: string, offset: int, limit: int): seq<int>
  {
    Window(SortDescending(CandidateIds(posts, meta, matches, quality, compressionType)), offset, limit)
  }

  /** Every selected ID is the ID of a candidate post, and at most
      `limit` are selected. */
  lemma SelectBatchSound(posts: seq<Post>, meta: Meta, matches: (PhpValue, int, string) -> bool,
                         quality: int, compressionType: string, offset: int, limit: int)
    ensures var r := SelectBatch(posts, meta, matches, quality, compressionType, offset, limit);
      && (forall id :: id in r ==>
            exists i :: 0 <= i < |posts| && posts[i].id == id && IsCandidate(posts[i], meta, matches, quality, compressionType))
      && (0 <= limit ==> |r| <= limit)
  {
    var c := CandidateIds(posts, meta, matches, quality, compressionType);
    var sorted := SortDescending(c);
    var r := Window(sorted, offset, limit);
    forall id | id in r
      ensures id in c
    {
      var k :| 0 <= k < |r| && r[k] == id;
      assert sorted[offset + k] in multiset(sorted);
    }
  }

  /** With distinct post IDs the selected IDs are strictly descending. */
  lemma SelectBatchOrdered(posts: seq<Post>, meta: Meta, matches: (PhpValue, int, string) -> bool,
                           quality: int, compressionType: string, offset: int, limit: int)
    requires UniqueIds(posts)
    ensures var r := SelectBatch(posts, meta, matches, quality, compressionType, offset, limit);
      forall i, j :: 0 <= i < j < |r| ==> r[i] > r[j]
  {
    var c := CandidateIds(posts, meta, matches, quality, compressionType);
    var sorted := SortDescending(c);
    var r := Window(sorted, offset, limit);
    CandidateIdsDistinct(posts, meta, matches, quality, compressionType);
    DistinctSortedIsStrict(c, sorted);
    forall i, j | 0 <= i < j < |r|
      ensures r[i] > r[j]
    {
      assert r[i] == sorted[offset + i] && r[j] == sorted[offset + j];
    }
  }

  /** A window from offset 0 at least as large as the table selects every
      candidate. */
  lemma SelectBatchComplete(posts: seq<Post>, meta: Meta, matches: (PhpValue, int, string) -> bool,
                            quality: int, compressionType: string, limit: int)
    requires limit >= |posts|
    ensures var r := SelectBatch(posts, meta, matches, quality, compressionType, 0, limit);
      forall i :: 0 <= i < |posts| && IsCandidate(posts[i], meta, matches, quality, compressionType) ==> posts[i].id in r
  {
    var c := CandidateIds(posts, meta, matches, quality, compressionType);
    var sorted := SortDescending(c);
    assert |sorted| == |c| by {
      assert |multiset(sorted)| == |multiset(c)|;
    }
    assert Window(sorted, 0, limit) == sorted;
    forall i | 0 <= i < |posts| && IsCandidate(posts[i], meta, matches, quality, compressionType)
      ensures posts[i].id in sorted
    {
      assert posts[i].id in c;
      assert posts[i].id in multiset(sorted);
    }
  }

  predicate Distinct(s: seq<int>) {
    forall i, j :: 0 <= i < j < |s| ==> s[i] != s[j]
  }

  /** Distinct post IDs give distinct candidate IDs. */
  lemma {:induction false} CandidateIdsDistinct(posts: seq<Post>, meta: Meta, matches: (PhpValue, int, string) -> bool,
                                                quality: int, compressionType: string)
    requires UniqueIds(posts)
    ensures Distinct(CandidateIds(posts, meta, matches, quality, compressionType))
  {
    if posts != [] {
      var tail := posts[1..];
      assert UniqueIds(tail) by {
        forall i, j | 0 <= i < j < |tail| ensures tail[i].id != tail[j].id {
          assert tail[i] == posts[i + 1] && tail[j] == posts[j + 1];
        }
      }
      CandidateIdsDistinct(tail, meta, matches, quality, compressionType);
      var rest := CandidateIds(tail, meta, matches, quality, compressionType);
      forall k | 0 <= k < |rest|
        ensures rest[k] != posts[0].id
      {
        assert rest[k] in rest;
        var i :| 0 <= i < |tail| && tail[i].id == rest[k] && IsCandidate(tail[i], meta, matches, quality, compressionType);
        assert tail[i] == posts[i + 1];
      }
    }
  }

  /** Two equal elements at different positions occur at least twice. */
  lemma TwoOccurrences(s: seq<int>, i: int, j: int)
    requires 0 <= i < j < |s|
    ensures s[i] == s[j] ==> multiset(s)[s[i]] >= 2
  {
    var rest := s[..i] + s[i + 1..];
    assert s == s[..i] + [s[i]] + s[i + 1..];
    assert s[j] == rest[j - 1];
    assert multiset(s) == multiset(rest) + multiset{s[i]};
    assert rest[j - 1] in multiset(rest);
  }

  /** A descending arrangement of distinct values is strictly descending. */
  lemma DistinctSortedIsStrict(c: seq<int>, sorted: seq<int>)
    requires Distinct(c) && Descending(sorted) && multiset(sorted) == multiset(c)
    ensures forall i, j :: 0 <= i < j < |sorted| ==> sorted[i] > sorted[j]
  {
    forall i, j | 0 <= i < j < |sorted|
      ensures sorted[i] > sorted[j]
    {
      DistinctCountsOnce(c, sorted[i]);
      TwoOccurrences(sorted, i, j);
    }
  }

  /** A value occurs at most once in a sequence of distinct values. */
  lemma {:induction false} DistinctCountsOnce(c: seq<int>, x: int)
    requires Distinct(c)
    ensures multiset(c)[x] <= 1
  {
    if c != [] {
      var tail := c[1..];
      assert c == [c[0]] + tail;
      assert Distinct(tail) by {
        forall i, j | 0 <= i < j < |tail| ensures tail[i] != tail[j] {
          assert tail[i] == c[i + 1] && tail[j] == c[j + 1];
        }
      }
      DistinctCountsOnce(tail, x);
      forall k | 0 <= k < |tail|
        ensures tail[k] != c[0]
      {
        assert tail[k] == c[k + 1];
      }
    }
  }
}
