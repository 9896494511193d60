/** The batch around the converter (src/index.ts): which directory entries
    are posts, converting all of them (any failure aborts the run), and the
    newest-first ordering of the exported posts. */
module Batch {
  import opened Wrappers
  import opened Strings
  import opened Lex
  import opened Slug
  import opened Content
  import opened Posts

  // ---------------------------------------------------------------------
  // File selection

  /** A directory entry is converted when it ends with `.html` and does not
      start with `_`. */
  predicate IsSourceName(name: string)
  {
    EndsWith(name, ".html") && !StartsWith(name, "_")
  }

  /** `allFiles.filter(...)`: the source files, in listing order. */
  function SourceFiles(names: seq<string>): (r: seq<string>)
    ensures forall x :: x in r <==> x in names && IsSourceName(x)
    ensures |r| <= |names|
  {
    if |names| == 0 then []
    else (if IsSourceName(names[0]) then [names[0]] else []) + SourceFiles(names[1..])
  }

  /** Filtering commutes with concatenation: together with the one-element
      case this pins the filter down as order-preserving. */
  lemma {:induction false} SourceFilesAppend(a: seq<string>, b: seq<string>)
    ensures SourceFiles(a + b) == SourceFiles(a) + SourceFiles(b)
    decreases |a|
  {
    if |a| == 0 {
      assert a + b == b;
    } else {
      assert (a + b)[0] == a[0];
      assert (a + b)[1..] == a[1..] + b;
      SourceFilesAppend(a[1..], b);
    }
  }

  lemma SourceFilesSingle(name: string)
    ensures SourceFiles([name]) == if IsSourceName(name) then [name] else []
  {
  }

  /** Filtering an already filtered listing keeps all of it. */
  lemma {:induction false} SourceFilesIdempotent(names: seq<string>)
    ensures SourceFiles(SourceFiles(names)) == SourceFiles(names)
    decreases |names|
  {
    if |names| > 0 {
      var head := if IsSourceName(names[0]) then [names[0]] else [];
      SourceFilesIdempotent(names[1..]);
      SourceFilesAppend(head, SourceFiles(names[1..]));
    }
  }

  // ---------------------------------------------------------------------
  // Conversion of every source file

  /** `Promise.all` over the per-file conversions: all results in listing
      order, or a failure as soon as one file fails. */
  function ConvertAll(files: seq<string>, read: string -> SourceDocument): Result<seq<Converted>, ConvertError>
  {
    if |files| == 0 then Success([])
    else
      match ConvertFile(files[0], read(files[0]))
      case Failure(e) => Failure(e)
      case Success(c) =>
        match ConvertAll(files[1..], read)
        case Failure(e) => Failure(e)
        case Success(cs) => Success([c] + cs)
  }

  /** Every file of `files` converts. */
  predicate AllFilesConvert(files: seq<string>, read: string -> SourceDocument)
  {
    forall k :: 0 <= k < |files| ==> ConvertFile(files[k], read(files[k])).Success?
  }

  /** `cs` holds, position by position, the conversions of `files`. */
  predicate ConversionsOf(files: seq<string>, read: string -> SourceDocument, cs: seq<Converted>)
  {
    |cs| == |files| && forall k :: 0 <= k < |files| ==> ConvertFile(files[k], read(files[k])) == Success(cs[k])
  }

  lemma AllFilesConvertCons(f: string, tail: seq<string>, read: string -> SourceDocument)
    ensures AllFilesConvert([f] + tail, read) <==> ConvertFile(f, read(f)).Success? && AllFilesConvert(tail, read)
  {
    var files := [f] + tail;
    assert files[0] == f;
    if AllFilesConvert(files, read) {
      forall k | 0 <= k < |tail|
        ensures ConvertFile(tail[k], read(tail[k])).Success?
      {
        assert files[k + 1] == tail[k];
      }
    }
    if ConvertFile(f, read(f)).Success? && AllFilesConvert(tail, read) {
      forall k | 0 < k < |files|
        ensures ConvertFile(files[k], read(files[k])).Success?
      {
        assert files[k] == tail[k - 1];
      }
    }
  }

  lemma ConversionsOfCons(f: string, tail: seq<string>, read: string -> SourceDocument, c: Converted, cs: seq<Converted>)
    requires ConvertFile(f, read(f)) == Success(c) && ConversionsOf(tail, read, cs)
    ensures ConversionsOf([f] + tail, read, [c] + cs)
  {
    var files, all := [f] + tail, [c] + cs;
    assert files[0] == f && all[0] == c;
    forall k | 0 < k < |files|
      ensures ConvertFile(files[k], read(files[k])) == Success(all[k])
    {
      assert files[k] == tail[k - 1];
      assert all[k] == cs[k - 1];
    }
  }

  /** All files convert exactly when `ConvertAll` succeeds, and then its
      result holds each file's conversion at the file's position. */
  lemma {:induction false} ConvertAllSucceeds(files: seq<string>, read: string -> SourceDocument)
    ensures ConvertAll(files, read).Success? <==> AllFilesConvert(files, read)
    ensures ConvertAll(files, read).Success? ==> ConversionsOf(files, read, ConvertAll(files, read).value)
  {
    if |files| > 0 {
      var f, tail := files[0], files[1..];
      assert files == [f] + tail;
      ConvertAllSucceeds(tail, read);
      AllFilesConvertCons(f, tail, read);
      if ConvertFile(f, read(f)).Success? && ConvertAll(tail, read).Success? {
        var c, cs := ConvertFile(f, read(f)).value, ConvertAll(tail, read).value;
        assert ConvertAll(files, read) == Success([c] + cs);
        ConversionsOfCons(f, tail, read, c, cs);
      }
    }
  }

  /** A failed run reports the error of one of the files. */
  lemma {:induction false} ConvertAllFails(files: seq<string>, read: string -> SourceDocument)
    ensures ConvertAll(files, read).Failure? ==>
              exists k :: 0 <= k < |files| && ConvertFile(files[k], read(files[k])) == Failure(ConvertAll(files, read).error)
  {
    if |files| > 0 && ConvertAll(files, read).Failure? {
      var e := ConvertAll(files, read).error;
      var tail := files[1..];
      if ConvertFile(files[0], read(files[0])).Success? {
        assert ConvertAll(files, read) == ConvertAll(tail, read);
        ConvertAllFails(tail, read);
        var k :| 0 <= k < |tail| && ConvertFile(tail[k], read(tail[k])) == Failure(e);
        assert files[k + 1] == tail[k];
      } else {
        assert ConvertFile(files[0], read(files[0])) == Failure(e);
      }
    }
  }

  function AssembleAll(cs: seq<Converted>): (r: seq<Post>)
    ensures |r| == |cs| && forall k :: 0 <= k < |cs| ==> r[k] == AssemblePost(cs[k])
  {
    seq(|cs|, k requires 0 <= k < |cs| => AssemblePost(cs[k]))
  }

  // ---------------------------------------------------------------------
  // `posts.sort((a, b) => b.date.localeCompare(a.date))`

  /** Every post is at least as recent as every post after it. */
  predicate NewestFirst(posts: seq<Post>)
  {
    forall i, j :: 0 <= i < j < |posts| ==> !Less(posts[i].date, posts[j].date)
  }

  /** Inserts `p` in front of the first post that is not strictly newer;
      posts of equal date keep `p` ahead of them. */
  function Insert(p: Post, sorted: seq<Post>): (r: seq<Post>)
    requires NewestFirst(sorted)
    ensures NewestFirst(r)
    ensures multiset(r) == multiset(sorted) + multiset{p}
  {
    if |sorted| == 0 then [p]
    else if Less(p.date, sorted[0].date) then
      var rest := Insert(p, sorted[1..]);
      assert sorted == [sorted[0]] + sorted[1..];
      NewerHeadStaysFirst(p, sorted, rest);
      [sorted[0]] + rest
    else
      NotNewerGoesFirst(p, sorted);
      [p] + sorted
  }

  lemma ConsNewestFirst(x: Post, s: seq<Post>)
    requires NewestFirst(s)
    requires forall j :: 0 <= j < |s| ==> !Less(x.date, s[j].date)
    ensures NewestFirst([x] + s)
  {
    var r := [x] + s;
    forall i, j | 0 <= i < j < |r|
      ensures !Less(r[i].date, r[j].date)
    {
      assert r[j] == s[j - 1];
      if i > 0 {
        assert r[i] == s[i - 1];
      }
    }
  }

  lemma NewerHeadStaysFirst(p: Post, sorted: seq<Post>, rest: seq<Post>)
    requires NewestFirst(sorted) && |sorted| > 0 && Less(p.date, sorted[0].date)
    requires NewestFirst(rest) && multiset(rest) == multiset(sorted[1..]) + multiset{p}
    ensures NewestFirst([sorted[0]] + rest)
  {
    forall j | 0 <= j < |rest|
      ensures !Less(sorted[0].date, rest[j].date)
    {
      assert rest[j] in multiset(rest);
      if rest[j] == p {
        LessAsymmetric(p.date, sorted[0].date);
      } else {
        assert rest[j] in sorted[1..];
        var i :| 0 <= i < |sorted[1..]| && sorted[1..][i] == rest[j];
        assert sorted[i + 1] == rest[j];
      }
    }
    ConsNewestFirst(sorted[0], rest);
  }

  lemma NotNewerGoesFirst(p: Post, sorted: seq<Post>)
    requires NewestFirst(sorted) && |sorted| > 0 && !Less(p.date, sorted[0].date)
    ensures NewestFirst([p] + sorted)
  {
    forall j | 0 <= j < |sorted|
      ensures !Less(p.date, sorted[j].date)
    {
      if j > 0 && Less(p.date, sorted[j].date) {
        LessTotal(p.date, sorted[0].date);
        if sorted[0].date != p.date {
          LessTransitive(sorted[0].date, p.date, sorted[j].date);
        }
      }
    }
    ConsNewestFirst(p, sorted);
  }

  /** A stable sort, newest first. */
  function SortNewestFirst(posts: seq<Post>): (r: seq<Post>)
    ensures NewestFirst(r)
    ensures multiset(r) == multiset(posts)
  {
    if |posts| == 0 then []
    else
      assert posts == [posts[0]] + posts[1..];
      Insert(posts[0], SortNewestFirst(posts[1..]))
  }

  /** The posts dated `d`, in order. */
  function WithDate(posts: seq<Post>, d: string): seq<Post>
  {
    if |posts| == 0 then []
    else (if posts[0].date == d then [posts[0]] else []) + WithDate(posts[1..], d)
  }

  lemma {:induction false} InsertKeepsDateOrder(p: Post, sorted: seq<Post>, d: string)
    requires NewestFirst(sorted)
    ensures WithDate(Insert(p, sorted), d) == (if p.date == d then [p] else []) + WithDate(sorted, d)
    decreases |sorted|
  {
    if |sorted| == 0 {
      assert Insert(p, sorted) == [p];
      assert [p][1..] == [];
    } else if Less(p.date, sorted[0].date) {
      InsertKeepsDateOrder(p, sorted[1..], d);
      InsertBehindNewer(p, sorted, d);
    } else {
      assert Insert(p, sorted) == [p] + sorted;
      assert ([p] + sorted)[1..] == sorted;
    }
  }

  lemma WithDateCons(x: Post, rest: seq<Post>, d: string)
    ensures WithDate([x] + rest, d) == (if x.date == d then [x] else []) + WithDate(rest, d)
  {
    assert ([x] + rest)[0] == x;
    assert ([x] + rest)[1..] == rest;
  }

  lemma SwapAroundEmpty(a: seq<Post>, b: seq<Post>, c: seq<Post>)
    requires a == [] || b == []
    ensures a + (b + c) == b + (a + c)
  {
    if a == [] {
      assert a + (b + c) == b + c == b + (a + c);
    } else {
      assert a + (b + c) == a + c == b + (a + c);
    }
  }

  lemma InsertBehindNewer(p: Post, sorted: seq<Post>, d: string)
    requires NewestFirst(sorted) && |sorted| > 0 && Less(p.date, sorted[0].date)
    requires WithDate(Insert(p, sorted[1..]), d) == (if p.date == d then [p] else []) + WithDate(sorted[1..], d)
    ensures WithDate(Insert(p, sorted), d) == (if p.date == d then [p] else []) + WithDate(sorted, d)
  {
    LessIrreflexive(p.date);
    var rest := Insert(p, sorted[1..]);
    assert Insert(p, sorted) == [sorted[0]] + rest;
    var mine := if p.date == d then [p] else [];
    var theirs := if sorted[0].date == d then [sorted[0]] else [];
    var tail := WithDate(sorted[1..], d);
    WithDateCons(sorted[0], rest, d);
    assert sorted == [sorted[0]] + sorted[1..];
    WithDateCons(sorted[0], sorted[1..], d);
    assert mine == [] || theirs == [];
    SwapAroundEmpty(theirs, mine, tail);
  }

  /** The sort is stable: among posts of the same date, the listing order
      survives. */
  lemma {:induction false} SortIsStable(posts: seq<Post>, d: string)
    ensures WithDate(SortNewestFirst(posts), d) == WithDate(posts, d)
    decreases |posts|
  {
    if |posts| > 0 {
      SortIsStable(posts[1..], d);
      InsertKeepsDateOrder(posts[0], SortNewestFirst(posts[1..]), d);
    }
  }

  /** Two posts listed oldest first come out newest first. */
  lemma SortSwapsPair(older: Post, newer: Post)
    requires Less(older.date, newer.date)
    ensures SortNewestFirst([older, newer]) == [newer, older]
  {
    var posts := [older, newer];
    assert posts[1..] == [newer];
    assert posts[1..][1..] == [];
    assert SortNewestFirst([newer]) == Insert(newer, []) == [newer];
    assert SortNewestFirst(posts) == Insert(older, [newer]);
    assert [newer][1..] == [];
  }

  /** A January post listed before a June post is exported after it. */
  lemma JuneBeforeJanuary(jan: Post, jun: Post)
    requires jan.date == "2024-01-01" && jun.date == "2024-06-01"
    ensures SortNewestFirst([jan, jun]) == [jun, jan]
  {
    IsoDatesOrder();
    SortSwapsPair(jan, jun);
  }

  // ---------------------------------------------------------------------
  // The whole export

  lemma AssembledPostsWellFormed(cs: seq<Converted>, sorted: seq<Post>)
    requires multiset(sorted) == multiset(AssembleAll(cs))
    ensures |sorted| == |cs|
    ensures forall p :: p in sorted ==> IsSlug(p.slug) && '/' !in p.image
  {
    var posts := AssembleAll(cs);
    assert |sorted| == |multiset(sorted)| == |multiset(posts)| == |posts|;
    forall p | p in sorted
      ensures IsSlug(p.slug) && '/' !in p.image
    {
      assert p in multiset(posts);
      var k :| 0 <= k < |posts| && posts[k] == p;
    }
  }

  /** Phases one and two of the run: convert every source file of the
      listing `names` (`read` stands for reading and parsing a file), assemble
      the posts and sort them newest first. Any failing file aborts the run. */
  function ExportPosts(names: seq<string>, read: string -> SourceDocument): (r: Result<seq<Post>, ConvertError>)
    ensures r.Success? <==> AllFilesConvert(SourceFiles(names), read)
    ensures r.Success? ==> (&& ConvertAll(SourceFiles(names), read).Success?
                            && NewestFirst(r.value)
                            && multiset(r.value) == multiset(AssembleAll(ConvertAll(SourceFiles(names), read).value)))
    ensures r.Success? ==> |r.value| == |SourceFiles(names)|
    ensures r.Success? ==> forall p :: p in r.value ==> IsSlug(p.slug) && '/' !in p.image
    ensures r.Failure? ==>
              exists k :: 0 <= k < |SourceFiles(names)|
                && ConvertFile(SourceFiles(names)[k], read(SourceFiles(names)[k])) == Failure(r.error)
  {
    ConvertAllSucceeds(SourceFiles(names), read);
    ConvertAllFails(SourceFiles(names), read);
    match ConvertAll(SourceFiles(names), read)
    case Failure(e) => Failure(e)
    case Success(cs) =>
      var posts := AssembleAll(cs);
      var sorted := SortNewestFirst(posts);
      AssembledPostsWellFormed(cs, sorted);
      Success(sorted)
  }
}
