/**
 * `_extract_images`: the content pictures of a Sanskriti IAS article. Every
 * `img.img-fluid` whose `src` points into `uploaded_files/images` is kept, in
 * document order, with its alt text and the `title` of an enclosing link as
 * caption (empty when there is no link or no title).
 */
module SanskritiImages {
  import opened Wrappers
  import opened Text
  import opened Dom
  import opened Documents

  const UploadsPath := "uploaded_files/images"

  predicate IsContentImage(n: Node) {
    n.Img? && "img-fluid" in n.classes && Contains(n.src, UploadsPath)
  }

  function Caption(parent: Option<Link>): string {
    match parent
    case Some(link) => link.title
    case None => ""
  }

  function ImageOf(n: Node): ImageRef
    requires n.Img?
  {
    ImageRef(n.src, n.alt, Caption(n.parentLink))
  }

  /** The images `_extract_images` returns for the nodes of an article container. */
  function Images(nodes: seq<Node>): (r: seq<ImageRef>)
    ensures |r| <= |nodes|
    ensures forall j :: 0 <= j < |r| ==> Contains(r[j].url, UploadsPath)
    decreases |nodes|
  {
    if nodes == [] then []
    else
      var n := nodes[|nodes| - 1];
      Images(nodes[..|nodes| - 1]) + (if IsContentImage(n) then [ImageOf(n)] else [])
  }

  /** `_extract_images`. */
  method ExtractImages(nodes: seq<Node>) returns (images: seq<ImageRef>)
    ensures images == Images(nodes)
  {
    images := [];
    var k := 0;
    while k < |nodes|
      invariant 0 <= k <= |nodes|
      invariant images == Images(nodes[..k])
    {
      var n := nodes[k];
      assert nodes[..k + 1][..k] == nodes[..k];
      if n.Img? && "img-fluid" in n.classes && Contains(n.src, UploadsPath) {
        var caption := "";
        if n.parentLink.Some? {
          caption := n.parentLink.value.title;
        }
        images := images + [ImageRef(n.src, n.alt, caption)];
      }
      k := k + 1;
    }
    assert nodes[..|nodes|] == nodes;
  }

  /** The images of two stretches of a page are those of each, in order. */
  lemma {:induction false} ImagesOfConcat(a: seq<Node>, b: seq<Node>)
    ensures Images(a + b) == Images(a) + Images(b)
    decreases |b|
  {
    if b == [] {
      assert a + b == a;
    } else {
      var init := b[..|b| - 1];
      assert (a + b)[..|a + b| - 1] == a + init;
      ImagesOfConcat(a, init);
    }
  }

  /** Every image kept comes from a content `img`, and every content `img` is kept. */
  lemma {:induction false} ImagesAreTheContentImages(nodes: seq<Node>)
    ensures |Images(nodes)| == |ContentImgs(nodes)|
    ensures forall j :: 0 <= j < |Images(nodes)| ==> Images(nodes)[j] == ImageOf(ContentImgs(nodes)[j])
    decreases |nodes|
  {
    if nodes != [] {
      ImagesAreTheContentImages(nodes[..|nodes| - 1]);
    }
  }

  /** The content `img` nodes, in document order. */
  function ContentImgs(nodes: seq<Node>): (r: seq<Node>)
    ensures forall j :: 0 <= j < |r| ==> IsContentImage(r[j]) && r[j] in nodes
    ensures forall k :: 0 <= k < |nodes| && IsContentImage(nodes[k]) ==> nodes[k] in r
    decreases |nodes|
  {
    if nodes == [] then []
    else
      var n := nodes[|nodes| - 1];
      ContentImgs(nodes[..|nodes| - 1]) + (if IsContentImage(n) then [n] else [])
  }
}
