/** The content-block loop of src/index.ts: the direct children of the
    `.post-content-body` element become text blocks and image galleries, and
    any other element aborts the conversion of the file. */
module Content {
  import opened Wrappers
  import opened Strings
  import opened HtmlEntity

  /** An already-parsed HTML node. `text` is the parser's text content of an
      element; `rawTag` is the tag name exactly as written in the markup. */
  datatype Node =
    | TextNode(value: string)
    | Element(rawTag: string, attrs: map<string, string>, children: seq<Node>, text: string)

  datatype ContentBlock =
    | TextBlock(content: string)
    | ImageGallery(images: seq<string>)

  /** The reasons a file's conversion aborts. */
  datatype ConvertError =
    | MissingMetadata(path: string)
    | MissingContentBody(path: string)
    | UnconvertibleNode(node: Node)
    | MissingImageSource(img: Node)

  /** `querySelectorAll("img")` on the children `ns`: every `img` element
      below them, in document (pre-)order. */
  function Imgs(ns: seq<Node>): (r: seq<Node>)
    ensures forall k :: 0 <= k < |r| ==> r[k].Element? && r[k].rawTag == "img"
    decreases ns
  {
    if |ns| == 0 then []
    else
      var head := match ns[0]
        case TextNode(_) => []
        case Element(tag, _, cs, _) =>
          (if tag == "img" then [ns[0]] else []) + Imgs(cs);
      head + Imgs(ns[1..])
  }

  /** The search of a single node lists the node itself when it is an
      `img`, followed by the `img` elements nested in it. With `ImgsAppend`
      this fixes `Imgs` as the document-order listing, each `img` once. */
  lemma ImgsOfNode(n: Node)
    ensures Imgs([n]) == (if n.Element? && n.rawTag == "img" then [n] else [])
                         + (if n.Element? then Imgs(n.children) else [])
  {
    assert [n][1..] == [];
  }

  /** `m` is one of the nodes `ns` or lies somewhere below one of them. */
  predicate Below(m: Node, ns: seq<Node>)
    decreases ns
  {
    exists k :: 0 <= k < |ns| && (m == ns[k] || (ns[k].Element? && Below(m, ns[k].children)))
  }

  lemma BelowCons(m: Node, ns: seq<Node>)
    requires |ns| > 0
    ensures Below(m, ns) <==>
      m == ns[0] || (ns[0].Element? && Below(m, ns[0].children)) || Below(m, ns[1..])
  {
    if Below(m, ns) {
      var k :| 0 <= k < |ns| && (m == ns[k] || (ns[k].Element? && Below(m, ns[k].children)));
      if k > 0 {
        assert ns[1..][k - 1] == ns[k];
      }
    }
    if Below(m, ns[1..]) {
      var k :| 0 <= k < |ns[1..]| && (m == ns[1..][k] || (ns[1..][k].Element? && Below(m, ns[1..][k].children)));
      assert ns[k + 1] == ns[1..][k];
    }
  }

  /** `Imgs` finds exactly the `img` elements below `ns`. */
  lemma {:induction false} ImgsFindsAll(m: Node, ns: seq<Node>)
    ensures m in Imgs(ns) <==> Below(m, ns) && m.Element? && m.rawTag == "img"
    decreases ns
  {
    if |ns| > 0 {
      ImgsFindsAll(m, ns[1..]);
      if ns[0].Element? {
        ImgsFindsAll(m, ns[0].children);
      }
      BelowCons(m, ns);
    }
  }

  /** Siblings are searched in order: the `img` elements under `a + b` are
      those under `a` followed by those under `b`. */
  lemma {:induction false} ImgsAppend(a: seq<Node>, b: seq<Node>)
    ensures Imgs(a + b) == Imgs(a) + Imgs(b)
    decreases |a|
  {
    if |a| == 0 {
      assert a + b == b;
    } else {
      assert (a + b)[0] == a[0];
      assert (a + b)[1..] == a[1..] + b;
      ImgsAppend(a[1..], b);
    }
  }

  /** An `img` element carries a `src` attribute. */
  predicate HasSource(img: Node)
    requires img.Element?
  {
    "src" in img.attrs
  }

  /** The file name an `img` refers to: the basename of its `src`. */
  function SourceName(img: Node): (r: string)
    requires img.Element? && HasSource(img)
    ensures '/' !in r
  {
    Basename(img.attrs["src"])
  }

  /** The basenames of the `src` attributes of `imgs`, in order; an `img`
      without `src` makes `getAttribute("src").split` throw. */
  function ImageNames(imgs: seq<Node>): (r: Result<seq<string>, ConvertError>)
    requires forall k :: 0 <= k < |imgs| ==> imgs[k].Element?
    ensures r.Failure? ==> r.error.MissingImageSource?
  {
    if |imgs| == 0 then Success([])
    else if !HasSource(imgs[0]) then Failure(MissingImageSource(imgs[0]))
    else match ImageNames(imgs[1..])
      case Failure(e) => Failure(e)
      case Success(rest) => Success([SourceName(imgs[0])] + rest)
  }

  /** Every image in `imgs` has a `src` attribute. */
  predicate AllHaveSource(imgs: seq<Node>)
    requires forall k :: 0 <= k < |imgs| ==> imgs[k].Element?
  {
    forall k :: 0 <= k < |imgs| ==> HasSource(imgs[k])
  }

  /** `names` holds, position by position, the basenames of the `src`
      attributes of `imgs`. */
  predicate NamesOf(imgs: seq<Node>, names: seq<string>)
    requires forall k :: 0 <= k < |imgs| ==> imgs[k].Element?
  {
    && |names| == |imgs|
    && forall k :: 0 <= k < |imgs| ==>
         HasSource(imgs[k]) && names[k] == SourceName(imgs[k])
  }

  lemma AllHaveSourceCons(imgs: seq<Node>)
    requires |imgs| > 0 && forall k :: 0 <= k < |imgs| ==> imgs[k].Element?
    ensures AllHaveSource(imgs) <==> HasSource(imgs[0]) && AllHaveSource(imgs[1..])
  {
    if HasSource(imgs[0]) && AllHaveSource(imgs[1..]) {
      forall k | 0 < k < |imgs|
        ensures HasSource(imgs[k])
      {
        assert imgs[k] == imgs[1..][k - 1];
      }
    }
  }

  lemma NamesOfCons(img: Node, tail: seq<Node>, rest: seq<string>)
    requires img.Element? && forall k :: 0 <= k < |tail| ==> tail[k].Element?
    requires HasSource(img) && NamesOf(tail, rest)
    ensures NamesOf([img] + tail, [SourceName(img)] + rest)
  {
    var imgs, names := [img] + tail, [SourceName(img)] + rest;
    assert imgs[0] == img && names[0] == SourceName(img);
    forall k | 0 < k < |imgs|
      ensures HasSource(imgs[k]) && names[k] == SourceName(imgs[k])
    {
      var j := k - 1;
      assert imgs[k] == tail[j];
      assert names[k] == rest[j];
    }
  }

  /** The names are found exactly when every `img` has a `src`; name `k` is
      then the basename of the `src` of image `k`, a plain file name. */
  lemma {:induction false} ImageNamesSucceed(imgs: seq<Node>)
    requires forall k :: 0 <= k < |imgs| ==> imgs[k].Element?
    ensures ImageNames(imgs).Success? <==> AllHaveSource(imgs)
    ensures ImageNames(imgs).Success? ==> NamesOf(imgs, ImageNames(imgs).value)
    ensures ImageNames(imgs).Success? ==>
              forall k :: 0 <= k < |ImageNames(imgs).value| ==> '/' !in ImageNames(imgs).value[k]
    decreases |imgs|
  {
    if |imgs| > 0 {
      var tail := imgs[1..];
      ImageNamesSucceed(tail);
      AllHaveSourceCons(imgs);
      if HasSource(imgs[0]) && ImageNames(tail).Success? {
        var rest := ImageNames(tail).value;
        assert ImageNames(imgs).value == [SourceName(imgs[0])] + rest;
        assert imgs == [imgs[0]] + tail;
        NamesOfCons(imgs[0], tail, rest);
      }
    }
  }

  /** A failure names the first `img` without a `src`. */
  lemma {:induction false} ImageNamesFail(imgs: seq<Node>)
    requires forall k :: 0 <= k < |imgs| ==> imgs[k].Element?
    ensures var r := ImageNames(imgs);
            r.Failure? ==> exists k :: FirstMissingSource(imgs, r.error, k)
    decreases |imgs|
  {
    if |imgs| > 0 {
      var tail := imgs[1..];
      ImageNamesFail(tail);
      var r := ImageNames(imgs);
      if !HasSource(imgs[0]) {
        assert r == Failure(MissingImageSource(imgs[0]));
        assert FirstMissingSource(imgs, r.error, 0);
      } else if ImageNames(tail).Failure? {
        assert r == ImageNames(tail);
        var k :| FirstMissingSource(tail, r.error, k);
        assert imgs[k + 1] == tail[k];
        forall j | 0 <= j < k + 1
          ensures HasSource(imgs[j])
        {
          if j > 0 {
            assert imgs[j] == tail[j - 1];
          }
        }
        assert FirstMissingSource(imgs, r.error, k + 1);
      }
    }
  }

  /** Image `k` of `imgs` is the first one without a `src`, and `e` names it. */
  predicate FirstMissingSource(imgs: seq<Node>, e: ConvertError, k: int)
    requires forall j :: 0 <= j < |imgs| ==> imgs[j].Element?
  {
    && 0 <= k < |imgs|
    && e == MissingImageSource(imgs[k])
    && !HasSource(imgs[k])
    && forall j :: 0 <= j < k ==> HasSource(imgs[j])
  }

  /** The block one element child becomes. */
  function ConvertElement(n: Node): Result<ContentBlock, ConvertError>
    requires n.Element?
  {
    if n.rawTag == "p" then Success(TextBlock(DecodeHtml(n.text)))
    else if n.rawTag == "figure" then
      match ImageNames(Imgs(n.children))
      case Success(names) => Success(ImageGallery(names))
      case Failure(e) => Failure(e)
    else Failure(UnconvertibleNode(n))
  }

  /** A `figure` becomes a gallery holding, for each `img` below it in
      document order, the basename of its `src`; it fails exactly when some
      such `img` has no `src`. */
  lemma FigureGallery(n: Node)
    requires n.Element? && n.rawTag == "figure"
    ensures ConvertElement(n).Success? <==> AllHaveSource(Imgs(n.children))
    ensures ConvertElement(n).Success? ==>
              && ConvertElement(n).value.ImageGallery?
              && NamesOf(Imgs(n.children), ConvertElement(n).value.images)
              && forall k :: 0 <= k < |ConvertElement(n).value.images| ==> '/' !in ConvertElement(n).value.images[k]
    ensures ConvertElement(n).Failure? ==>
              exists k :: FirstMissingSource(Imgs(n.children), ConvertElement(n).error, k)
  {
    var imgs := Imgs(n.children);
    ImageNamesSucceed(imgs);
    ImageNamesFail(imgs);
    var names := ImageNames(imgs);
    if names.Success? {
      assert ConvertElement(n) == Success(ImageGallery(names.value));
    } else {
      assert ConvertElement(n) == Failure(names.error);
    }
  }

  /** The element children of `ns`, in order: what is left once text nodes
      are skipped. */
  function Elements(ns: seq<Node>): (r: seq<Node>)
    ensures forall k :: 0 <= k < |r| ==> r[k].Element?
    ensures |r| <= |ns|
  {
    if |ns| == 0 then []
    else (if ns[0].Element? then [ns[0]] else []) + Elements(ns[1..])
  }

  /** The `forEach` over `contentBody.childNodes`: text nodes are skipped,
      every element child yields one block, and the first element that
      cannot be converted aborts with its error. */
  function ExtractBlocks(children: seq<Node>): (r: Result<seq<ContentBlock>, ConvertError>)
  {
    if |children| == 0 then Success([])
    else
      var rest := ExtractBlocks(children[1..]);
      if children[0].TextNode? then rest
      else match ConvertElement(children[0])
        case Failure(e) => Failure(e)
        case Success(b) =>
          match rest
          case Failure(e) => Failure(e)
          case Success(bs) => Success([b] + bs)
  }

  /** Index `k` of `es` holds the first element that fails, with `e`. */
  predicate FirstFailureAt(es: seq<Node>, e: ConvertError, k: int)
    requires forall j :: 0 <= j < |es| ==> es[j].Element?
  {
    && 0 <= k < |es|
    && ConvertElement(es[k]) == Failure(e)
    && forall j :: 0 <= j < k ==> ConvertElement(es[j]).Success?
  }

  /** Every element of `es` converts to a block. */
  predicate AllConvert(es: seq<Node>)
    requires forall k :: 0 <= k < |es| ==> es[k].Element?
  {
    forall k :: 0 <= k < |es| ==> ConvertElement(es[k]).Success?
  }

  /** `bs` holds, position by position, the conversions of `es`. */
  predicate BlocksOf(es: seq<Node>, bs: seq<ContentBlock>)
    requires forall k :: 0 <= k < |es| ==> es[k].Element?
  {
    |bs| == |es| && forall k :: 0 <= k < |es| ==> ConvertElement(es[k]) == Success(bs[k])
  }

  lemma AllConvertCons(n: Node, es: seq<Node>)
    requires n.Element? && forall k :: 0 <= k < |es| ==> es[k].Element?
    ensures AllConvert([n] + es) <==> ConvertElement(n).Success? && AllConvert(es)
  {
    var all := [n] + es;
    assert all[0] == n;
    if AllConvert(all) {
      forall k | 0 <= k < |es|
        ensures ConvertElement(es[k]).Success?
      {
        assert all[k + 1] == es[k];
      }
    }
    if ConvertElement(n).Success? && AllConvert(es) {
      forall k | 0 < k < |all|
        ensures ConvertElement(all[k]).Success?
      {
        assert all[k] == es[k - 1];
      }
    }
  }

  lemma ConsIndex<T>(x: T, xs: seq<T>, k: int)
    requires 0 < k <= |xs|
    ensures ([x] + xs)[k] == xs[k - 1]
  {
  }

  lemma BlocksOfCons(n: Node, es: seq<Node>, b: ContentBlock, bs: seq<ContentBlock>)
    requires n.Element? && forall k :: 0 <= k < |es| ==> es[k].Element?
    requires ConvertElement(n) == Success(b) && BlocksOf(es, bs)
    ensures BlocksOf([n] + es, [b] + bs)
  {
    var all, blocks := [n] + es, [b] + bs;
    assert all[0] == n && blocks[0] == b;
    forall k | 0 < k < |all|
      ensures ConvertElement(all[k]) == Success(blocks[k])
    {
      ConsIndex(n, es, k);
      ConsIndex(b, bs, k);
    }
  }

  /** Extraction succeeds exactly when every element child converts; then
      block `k` is the conversion of element child `k`, so text nodes add
      nothing. */
  lemma {:induction false} ExtractBlocksSucceeds(children: seq<Node>)
    ensures ExtractBlocks(children).Success? <==> AllConvert(Elements(children))
    ensures ExtractBlocks(children).Success? ==> BlocksOf(Elements(children), ExtractBlocks(children).value)
  {
    if |children| > 0 {
      var n := children[0];
      var tail := children[1..];
      ExtractBlocksSucceeds(tail);
      if n.TextNode? {
        assert Elements(children) == Elements(tail);
        assert ExtractBlocks(children) == ExtractBlocks(tail);
      } else {
        assert Elements(children) == [n] + Elements(tail);
        AllConvertCons(n, Elements(tail));
        if ConvertElement(n).Success? && ExtractBlocks(tail).Success? {
          var b, bs := ConvertElement(n).value, ExtractBlocks(tail).value;
          assert ExtractBlocks(children) == Success([b] + bs);
          BlocksOfCons(n, Elements(tail), b, bs);
        }
      }
    }
  }

  /** A failed extraction reports the error of the first failing element
      child. */
  lemma {:induction false} ExtractBlocksFails(children: seq<Node>)
    ensures var r := ExtractBlocks(children);
            r.Failure? ==> exists k :: FirstFailureAt(Elements(children), r.error, k)
  {
    if |children| > 0 {
      var n := children[0];
      var tail := children[1..];
      ExtractBlocksFails(tail);
      var es := Elements(children);
      var ts := Elements(tail);
      var r := ExtractBlocks(children);
      if n.TextNode? {
        assert es == ts;
      } else if r.Failure? {
        assert es == [n] + ts;
        if ConvertElement(n).Failure? {
          assert FirstFailureAt(es, r.error, 0);
        } else {
          assert r == ExtractBlocks(tail);
          var k :| FirstFailureAt(ts, r.error, k);
          assert es[k + 1] == ts[k];
          forall j | 0 <= j < k + 1
            ensures ConvertElement(es[j]).Success?
          {
            if j > 0 {
              assert es[j] == ts[j - 1];
            }
          }
          assert FirstFailureAt(es, r.error, k + 1);
        }
      }
    }
  }

  /** Both halves of the loop's contract together. */
  lemma ExtractBlocksSpec(children: seq<Node>)
    ensures ExtractBlocks(children).Success? <==> AllConvert(Elements(children))
    ensures ExtractBlocks(children).Success? ==> BlocksOf(Elements(children), ExtractBlocks(children).value)
    ensures ExtractBlocks(children).Failure? ==>
              exists k :: FirstFailureAt(Elements(children), ExtractBlocks(children).error, k)
  {
    ExtractBlocksSucceeds(children);
    ExtractBlocksFails(children);
  }

  /** Sequencing two extraction results: the first failure wins. */
  function AndThen(x: Result<seq<ContentBlock>, ConvertError>, y: Result<seq<ContentBlock>, ConvertError>)
    : Result<seq<ContentBlock>, ConvertError>
  {
    match x
    case Failure(e) => Failure(e)
    case Success(u) =>
      match y
      case Failure(e) => Failure(e)
      case Success(v) => Success(u + v)
  }

  /** The blocks a single child contributes. */
  function ChildBlocks(n: Node): Result<seq<ContentBlock>, ConvertError>
  {
    if n.TextNode? then Success([])
    else match ConvertElement(n)
      case Failure(e) => Failure(e)
      case Success(b) => Success([b])
  }

  lemma AndThenAssociative(x: Result<seq<ContentBlock>, ConvertError>, y: Result<seq<ContentBlock>, ConvertError>,
                           z: Result<seq<ContentBlock>, ConvertError>)
    ensures AndThen(AndThen(x, y), z) == AndThen(x, AndThen(y, z))
  {
    if x.Success? && y.Success? && z.Success? {
      assert (x.value + y.value) + z.value == x.value + (y.value + z.value);
    }
  }

  /** One step of the loop: the first child's blocks, then the rest's. */
  lemma ExtractBlocksStep(children: seq<Node>)
    requires |children| > 0
    ensures ExtractBlocks(children) == AndThen(ChildBlocks(children[0]), ExtractBlocks(children[1..]))
  {
    var rest := ExtractBlocks(children[1..]);
    if children[0].TextNode? && rest.Success? {
      assert [] + rest.value == rest.value;
    }
  }

  /** Extraction of consecutive runs of children composes. */
  lemma {:induction false} ExtractBlocksAppend(a: seq<Node>, b: seq<Node>)
    ensures ExtractBlocks(a + b) == AndThen(ExtractBlocks(a), ExtractBlocks(b))
    decreases |a|
  {
    if |a| == 0 {
      assert a + b == b;
      if ExtractBlocks(b).Success? {
        assert [] + ExtractBlocks(b).value == ExtractBlocks(b).value;
      }
    } else {
      var ab := a + b;
      assert ab[0] == a[0];
      assert ab[1..] == a[1..] + b;
      ExtractBlocksStep(ab);
      ExtractBlocksStep(a);
      ExtractBlocksAppend(a[1..], b);
      AndThenAssociative(ChildBlocks(a[0]), ExtractBlocks(a[1..]), ExtractBlocks(b));
    }
  }

  /** A text node between other children changes nothing. */
  lemma TextNodeSkipped(a: seq<Node>, t: string, b: seq<Node>)
    ensures ExtractBlocks(a + [TextNode(t)] + b) == ExtractBlocks(a + b)
  {
    ExtractBlocksAppend(a + [TextNode(t)], b);
    ExtractBlocksAppend(a, [TextNode(t)]);
    ExtractBlocksAppend(a, b);
    assert ExtractBlocks([TextNode(t)]) == Success([]);
    match ExtractBlocks(a)
    case Failure(_) =>
    case Success(u) =>
      assert u + [] == u;
  }

  /** A direct child whose raw tag is neither `p` nor `figure` makes the whole
      extraction fail; no partial block list is returned. */
  lemma UnknownTagAborts(children: seq<Node>, k: int)
    requires 0 <= k < |children| && children[k].Element?
    requires children[k].rawTag != "p" && children[k].rawTag != "figure"
    ensures ExtractBlocks(children).Failure?
  {
    var a, b := children[..k], children[k + 1..];
    assert children == a + [children[k]] + b;
    ExtractBlocksAppend(a + [children[k]], b);
    ExtractBlocksAppend(a, [children[k]]);
    assert ExtractBlocks([children[k]]) == Failure(UnconvertibleNode(children[k]));
  }

  /** A `div` directly inside the content body aborts the file. */
  lemma DivAborts(t: string)
    ensures ExtractBlocks([Element("p", map[], [], t), Element("div", map[], [], t)])
         == Failure(UnconvertibleNode(Element("div", map[], [], t)))
  {
  }

  /** A paragraph with an encoded apostrophe becomes decoded text. */
  lemma ParagraphDecoded(children: seq<Node>, p: Node)
    requires p.Element? && p.rawTag == "p" && p.text == "It&#x27;s great"
    requires |children| == 2 && children[0].TextNode? && children[1] == p
    ensures ExtractBlocks(children) == Success([TextBlock("It's great")])
  {
    DecodesOneApostrophe(p.text);
    var one := children[1..];
    assert ExtractBlocks(children) == ExtractBlocks(one);
    assert one[1..] == [];
    var block := TextBlock(DecodeHtml(p.text));
    assert ExtractBlocks(one) == Success([block] + []);
    assert [block] + [] == [block];
  }
}
