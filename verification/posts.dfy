/** Per-file conversion and `Post` assembly (src/index.ts): pick the first
    JSON-LD record typed `Article`, find the content body, extract its blocks,
    and map the record's fields onto a `Post`. */
module Posts {
  import opened Wrappers
  import opened Strings
  import opened HtmlEntity
  import opened Slug
  import opened Content

  /** A parsed `application/ld+json` record, reduced to the fields the
      exporter reads: `@type`, `headline`, `image.url`, `datePublished` and
      `description`. */
  datatype LdRecord = LdRecord(
    kind: string,
    headline: string,
    imageUrl: string,
    datePublished: string,
    description: string)

  /** A parsed source file: its JSON-LD records in document order, and the
      child nodes of its first `.post-content-body` element, if there is one. */
  datatype SourceDocument = SourceDocument(ldRecords: seq<LdRecord>, contentBody: Option<seq<Node>>)

  /** What the first phase keeps of a file: its article record and blocks. */
  datatype Converted = Converted(ld: LdRecord, contents: seq<ContentBlock>)

  datatype Post = Post(
    slug: string,
    title: string,
    date: string,
    image: string,
    description: string,
    content: seq<ContentBlock>)

  const BaseDir: string := "data/blog"

  predicate IsArticle(rec: LdRecord)
  {
    rec.kind == "Article"
  }

  /** No record is typed `Article`. */
  predicate NoArticle(records: seq<LdRecord>)
  {
    forall k :: 0 <= k < |records| ==> !IsArticle(records[k])
  }

  /** Record `k` is the first one typed `Article`. */
  predicate FirstArticleAt(records: seq<LdRecord>, k: int)
  {
    0 <= k < |records| && IsArticle(records[k]) && forall j :: 0 <= j < k ==> !IsArticle(records[j])
  }

  /** `.find((ld) => ld["@type"] === "Article")`. */
  function FindArticle(records: seq<LdRecord>): Option<LdRecord>
  {
    if |records| == 0 then None
    else if IsArticle(records[0]) then Some(records[0])
    else FindArticle(records[1..])
  }

  /** The search finds nothing exactly when no record is an `Article`, and
      otherwise finds the first one. */
  lemma {:induction false} FindArticleSpec(records: seq<LdRecord>)
    ensures FindArticle(records).None? <==> NoArticle(records)
    ensures FindArticle(records).Some? ==> exists k :: FirstArticleAt(records, k) && FindArticle(records).value == records[k]
  {
    if |records| > 0 {
      var tail := records[1..];
      FindArticleSpec(tail);
      if IsArticle(records[0]) {
        assert FirstArticleAt(records, 0);
      } else {
        assert FindArticle(records) == FindArticle(tail);
        if FindArticle(tail).Some? {
          var k :| FirstArticleAt(tail, k) && FindArticle(tail).value == tail[k];
          assert records[k + 1] == tail[k];
          assert FirstArticleAt(records, k + 1);
        } else {
          forall k | 0 < k < |records|
            ensures !IsArticle(records[k])
          {
            assert records[k] == tail[k - 1];
          }
        }
      }
    }
  }

  /** The first phase for one file named `file`: metadata first, then the
      content body, then its blocks; the first missing piece aborts. */
  function ConvertFile(file: string, doc: SourceDocument): Result<Converted, ConvertError>
  {
    var path := BaseDir + "/" + file;
    match FindArticle(doc.ldRecords)
    case None => Failure(MissingMetadata(path))
    case Some(ld) =>
      match doc.contentBody
      case None => Failure(MissingContentBody(path))
      case Some(children) =>
        match ExtractBlocks(children)
        case Failure(e) => Failure(e)
        case Success(blocks) => Success(Converted(ld, blocks))
  }

  /** A file converts exactly when it has an `Article` record and a content
      body whose blocks all convert; the result pairs the first `Article`
      record with the blocks. Otherwise the error says what was missing,
      in that order of checking, naming the file by its path under the
      blog directory. */
  lemma ConvertFileSpec(file: string, doc: SourceDocument)
    ensures NoArticle(doc.ldRecords) ==>
              ConvertFile(file, doc) == Failure(MissingMetadata(BaseDir + "/" + file))
    ensures !NoArticle(doc.ldRecords) && doc.contentBody.None? ==>
              ConvertFile(file, doc) == Failure(MissingContentBody(BaseDir + "/" + file))
    ensures !NoArticle(doc.ldRecords) && doc.contentBody.Some? && ExtractBlocks(doc.contentBody.value).Failure? ==>
              ConvertFile(file, doc) == Failure(ExtractBlocks(doc.contentBody.value).error)
    ensures ConvertFile(file, doc).Success? <==>
              !NoArticle(doc.ldRecords) && doc.contentBody.Some? && ExtractBlocks(doc.contentBody.value).Success?
    ensures ConvertFile(file, doc).Success? ==>
              && ConvertFile(file, doc).value.contents == ExtractBlocks(doc.contentBody.value).value
              && exists k :: FirstArticleAt(doc.ldRecords, k) && ConvertFile(file, doc).value.ld == doc.ldRecords[k]
  {
    FindArticleSpec(doc.ldRecords);
    var found := FindArticle(doc.ldRecords);
    if found.Some? {
      var k :| FirstArticleAt(doc.ldRecords, k) && found.value == doc.ldRecords[k];
      if doc.contentBody.Some? && ExtractBlocks(doc.contentBody.value).Success? {
        assert ConvertFile(file, doc).value.ld == doc.ldRecords[k];
      }
    }
  }

  /** The field mapping of the second phase. */
  function AssemblePost(c: Converted): (p: Post)
    ensures p.title == DecodeHtml(c.ld.headline)
    ensures p.slug == Slugify(p.title) && IsSlug(p.slug)
    ensures p.image == Basename(c.ld.imageUrl) && '/' !in p.image
    ensures p.date == c.ld.datePublished
    ensures p.description == DecodeHtml(c.ld.description)
    ensures p.content == c.contents
  {
    var title := DecodeHtml(c.ld.headline);
    Post(Slugify(title), title, c.ld.datePublished, Basename(c.ld.imageUrl),
         DecodeHtml(c.ld.description), c.contents)
  }

  /** An image URL ending in `/name` yields the bare file name as the post image. */
  lemma PostImageIsFileName(c: Converted, dir: string, name: string)
    requires '/' !in name && c.ld.imageUrl == dir + "/" + name
    ensures AssemblePost(c).image == name
  {
    BasenameOfJoin(dir, name);
  }

  /** The post's slug is stable: deriving it again from itself changes nothing. */
  lemma PostSlugIsFixedPoint(c: Converted)
    ensures Slugify(AssemblePost(c).slug) == AssemblePost(c).slug
  {
    SlugifyIdempotent(AssemblePost(c).title);
  }
}
