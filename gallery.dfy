/**
  Loading the gallery of known faces at start-up (face_server.py, the loop
  over the image directory and findEncodings).

  Two lists are built by two separate loops.  `classNames` gets one name per
  file that decodes as an image: the file name with its last extension
  removed.  `encodeListKnown` gets, per decoded image, the first face
  encoding the vision library finds, and nothing for an image without a
  face.  The two lists are therefore index-aligned only when every decoded
  image shows a face; otherwise later encodings shift down and are paired
  with earlier names.  The model keeps that behaviour.

  The directory listing is an input: one entry per file name, holding the
  image `cv2.imread` decoded or None when decoding failed.  The face encoder
  is the function `encodeAll`.
*/
module GalleryLoader {
  import opened Wrappers

  /** A file of the image directory and what decoding it produced. */
  datatype DirEntry<Image> = DirEntry(name: string, decoded: Option<Image>)

  /** The known identities and the known encodings, as two parallel lists. */
  datatype Gallery<Encoding> = Gallery(classNames: seq<string>, encodeListKnown: seq<Encoding>)
  {
    /** Every encoding position has a name, so a match index is a valid name index. */
    predicate Consistent()
    {
      |encodeListKnown| <= |classNames|
    }
  }

  // ---------------------------------------------------------------------
  // File names: os.path.splitext(name)[0]
  // ---------------------------------------------------------------------

  /** The index of the last occurrence of `c` in `s`, or -1 (str.rfind). */
  function RFind(s: string, c: char): (r: int)
    ensures -1 <= r < |s|
    ensures r >= 0 ==> s[r] == c
    ensures forall j :: r < j < |s| ==> s[j] != c
    decreases |s|
  {
    if |s| == 0 then -1
    else if s[|s| - 1] == c then |s| - 1
    else RFind(s[..|s| - 1], c)
  }

  /** `s` consists of dots only (possibly none). */
  predicate AllDots(s: string)
  {
    forall j :: 0 <= j < |s| ==> s[j] == '.'
  }

  /**
    The root of a file name without directory separators: everything before
    the last dot, unless only dots precede that dot (a leading-dot name such
    as ".profile" has no extension).
  */
  function StemOf(name: string): (r: string)
    ensures |r| <= |name| && r == name[..|r|]
    // when something is stripped, it is the last dot and what follows it,
    // and the root keeps at least one character other than a dot
    ensures r != name ==>
              name[|r|] == '.' && !AllDots(r) &&
              forall j :: |r| < j < |name| ==> name[j] != '.'
    // when nothing is stripped, no character other than a dot precedes any dot
    ensures r == name ==>
              forall j, k :: 0 <= j < k < |name| && name[k] == '.' ==> name[j] == '.'
  {
    var dot := RFind(name, '.');
    if dot >= 0 && !AllDots(name[..dot]) then name[..dot] else name
  }

  /** Stripping the extension from "root.ext" gives back "root". */
  lemma StemOfJoin(root: string, ext: string)
    requires !AllDots(root)
    requires '.' !in ext
    ensures StemOf(root + "." + ext) == root
  {
    var name := root + "." + ext;
    assert name[|root|] == '.';
    assert forall j :: |root| < j < |name| ==> name[j] == ext[j - |root| - 1];
    assert RFind(name, '.') == |root|;
    assert name[..|root|] == root;
  }

  /** A name without a dot is its own root. */
  lemma StemOfNoDot(name: string)
    requires '.' !in name
    ensures StemOf(name) == name
  {
    assert RFind(name, '.') == -1;
  }

  // ---------------------------------------------------------------------
  // The directory loop: images and classNames
  // ---------------------------------------------------------------------

  /**
    The entries of the listing that decoded, in listing order.  This is the
    reference filter the two directory-loop lists are stated against; its
    contract gives membership, and its body gives the order.
  */
  function Decodable<Image>(listing: seq<DirEntry<Image>>): (r: seq<DirEntry<Image>>)
    ensures |r| <= |listing|
    ensures forall i :: 0 <= i < |r| ==> r[i].decoded.Some? && r[i] in listing
    ensures forall i :: 0 <= i < |listing| && listing[i].decoded.Some? ==> listing[i] in r
    ensures |r| == |listing| <==> forall i :: 0 <= i < |listing| ==> listing[i].decoded.Some?
    decreases |listing|
  {
    if listing == [] then []
    else
      var last := listing[|listing| - 1];
      Decodable(listing[..|listing| - 1]) + (if last.decoded.Some? then [last] else [])
  }

  /** The `images` list the directory loop builds. */
  function LoadedImages<Image>(listing: seq<DirEntry<Image>>): (r: seq<Image>)
    ensures |r| == |Decodable(listing)|
    ensures forall i :: 0 <= i < |r| ==> Decodable(listing)[i].decoded == Some(r[i])
    decreases |listing|
  {
    if listing == [] then []
    else
      var last := listing[|listing| - 1];
      LoadedImages(listing[..|listing| - 1]) + (if last.decoded.Some? then [last.decoded.value] else [])
  }

  /** The `classNames` list the directory loop builds. */
  function LoadedNames<Image>(listing: seq<DirEntry<Image>>): (r: seq<string>)
    ensures |r| == |Decodable(listing)|
    ensures forall i :: 0 <= i < |r| ==> r[i] == StemOf(Decodable(listing)[i].name)
    decreases |listing|
  {
    if listing == [] then []
    else
      var last := listing[|listing| - 1];
      LoadedNames(listing[..|listing| - 1]) + (if last.decoded.Some? then [StemOf(last.name)] else [])
  }

  /** The loop over the directory listing: skip what does not decode, keep the image and its root name. */
  method LoadImages<Image>(listing: seq<DirEntry<Image>>) returns (images: seq<Image>, classNames: seq<string>)
    ensures images == LoadedImages(listing)
    ensures classNames == LoadedNames(listing)
  {
    images, classNames := [], [];
    for k := 0 to |listing|
      invariant images == LoadedImages(listing[..k])
      invariant classNames == LoadedNames(listing[..k])
    {
      assert listing[..k + 1][..k] == listing[..k];
      var file := listing[k];
      if file.decoded.None? {
        continue;
      }
      images := images + [file.decoded.value];
      classNames := classNames + [StemOf(file.name)];
    }
    assert listing[..|listing|] == listing;
  }

  // ---------------------------------------------------------------------
  // findEncodings
  // ---------------------------------------------------------------------

  /** The list findEncodings returns: the first encoding of each image that has one. */
  function FirstEncodings<Image, Encoding>(images: seq<Image>, encodeAll: Image -> seq<Encoding>): (r: seq<Encoding>)
    ensures |r| <= |images|
    decreases |images|
  {
    if images == [] then []
    else
      var encodes := encodeAll(images[|images| - 1]);
      FirstEncodings(images[..|images| - 1], encodeAll) + (if |encodes| > 0 then [encodes[0]] else [])
  }

  /** findEncodings(images_list) */
  method FindEncodings<Image, Encoding>(imagesList: seq<Image>, encodeAll: Image -> seq<Encoding>)
    returns (encodeList: seq<Encoding>)
    ensures encodeList == FirstEncodings(imagesList, encodeAll)
  {
    encodeList := [];
    for k := 0 to |imagesList|
      invariant encodeList == FirstEncodings(imagesList[..k], encodeAll)
    {
      assert imagesList[..k + 1][..k] == imagesList[..k];
      var encodes := encodeAll(imagesList[k]);
      if |encodes| > 0 {
        encodeList := encodeList + [encodes[0]];
      }
    }
    assert imagesList[..|imagesList|] == imagesList;
  }

  /** findEncodings over two runs of images is findEncodings of each run, joined. */
  lemma {:induction false} FirstEncodingsAppend<Image, Encoding>(a: seq<Image>, b: seq<Image>, encodeAll: Image -> seq<Encoding>)
    ensures FirstEncodings(a + b, encodeAll) == FirstEncodings(a, encodeAll) + FirstEncodings(b, encodeAll)
    decreases |b|
  {
    if b == [] {
      assert a + b == a;
    } else {
      var init := b[..|b| - 1];
      FirstEncodingsAppend(a, init, encodeAll);
      assert (a + b)[..|a + b| - 1] == a + init;
      assert (a + b)[|a + b| - 1] == b[|b| - 1];
    }
  }

  /**
    An image without a face contributes nothing: every encoding of a later
    image sits one place lower than that image does.  An image with a face
    contributes exactly its first encoding, in its place.
  */
  lemma OneImageContribution<Image, Encoding>(before: seq<Image>, img: Image, after: seq<Image>, encodeAll: Image -> seq<Encoding>)
    ensures |encodeAll(img)| == 0 ==>
              FirstEncodings(before + [img] + after, encodeAll)
                == FirstEncodings(before, encodeAll) + FirstEncodings(after, encodeAll)
    ensures |encodeAll(img)| > 0 ==>
              FirstEncodings(before + [img] + after, encodeAll)
                == FirstEncodings(before, encodeAll) + [encodeAll(img)[0]] + FirstEncodings(after, encodeAll)
  {
    FirstEncodingsAppend(before + [img], after, encodeAll);
    FirstEncodingsAppend(before, [img], encodeAll);
    assert [img][..0] == [];
  }

  /** There is one encoding per image exactly when every image shows a face. */
  lemma {:induction false} OneEncodingPerImageIff<Image, Encoding>(images: seq<Image>, encodeAll: Image -> seq<Encoding>)
    ensures |FirstEncodings(images, encodeAll)| == |images| <==>
              forall i :: 0 <= i < |images| ==> |encodeAll(images[i])| > 0
    decreases |images|
  {
    if images != [] {
      var init := images[..|images| - 1];
      OneEncodingPerImageIff(init, encodeAll);
      assert forall i :: 0 <= i < |init| ==> init[i] == images[i];
    }
  }

  /** When every image shows a face, encoding i is the first face of image i. */
  lemma {:induction false} AlignedWhenEveryImageHasAFace<Image, Encoding>(images: seq<Image>, encodeAll: Image -> seq<Encoding>)
    requires forall i :: 0 <= i < |images| ==> |encodeAll(images[i])| > 0
    ensures |FirstEncodings(images, encodeAll)| == |images|
    ensures forall i :: 0 <= i < |images| ==> FirstEncodings(images, encodeAll)[i] == encodeAll(images[i])[0]
    decreases |images|
  {
    if images != [] {
      var init := images[..|images| - 1];
      assert forall i :: 0 <= i < |init| ==> init[i] == images[i];
      AlignedWhenEveryImageHasAFace(init, encodeAll);
    }
  }

  // ---------------------------------------------------------------------
  // Start-up
  // ---------------------------------------------------------------------

  /** The start-up sequence: the directory loop, then findEncodings over the decoded images. */
  method LoadGallery<Image, Encoding>(listing: seq<DirEntry<Image>>, encodeAll: Image -> seq<Encoding>)
    returns (g: Gallery<Encoding>)
    ensures g.classNames == LoadedNames(listing)
    ensures g.encodeListKnown == FirstEncodings(LoadedImages(listing), encodeAll)
    // every match index the recogniser can pick names a loaded identity
    ensures g.Consistent()
    // the two lists have equal length exactly when every decoded image shows a face
    ensures |g.encodeListKnown| == |g.classNames| <==>
              forall i :: 0 <= i < |LoadedImages(listing)| ==> |encodeAll(LoadedImages(listing)[i])| > 0
  {
    var images, classNames := LoadImages(listing);
    var encodeListKnown := FindEncodings(images, encodeAll);
    OneEncodingPerImageIff(images, encodeAll);
    g := Gallery(classNames, encodeListKnown);
  }

  /** With only decodable files each showing a face, entry i pairs the root of file i with its face. */
  lemma FullyAlignedGallery<Image, Encoding>(listing: seq<DirEntry<Image>>, encodeAll: Image -> seq<Encoding>)
    requires forall i :: 0 <= i < |listing| ==> listing[i].decoded.Some?
    requires forall i :: 0 <= i < |listing| ==> |encodeAll(listing[i].decoded.value)| > 0
    ensures |LoadedNames(listing)| == |FirstEncodings(LoadedImages(listing), encodeAll)| == |listing|
    ensures forall i :: 0 <= i < |listing| ==>
              LoadedNames(listing)[i] == StemOf(listing[i].name) &&
              FirstEncodings(LoadedImages(listing), encodeAll)[i] == encodeAll(listing[i].decoded.value)[0]
  {
    DecodableAll(listing);
    var images := LoadedImages(listing);
    assert forall i :: 0 <= i < |images| ==> Some(images[i]) == listing[i].decoded;
    AlignedWhenEveryImageHasAFace(images, encodeAll);
  }

  /** With every file decodable, Decodable keeps the whole listing. */
  lemma {:induction false} DecodableAll<Image>(listing: seq<DirEntry<Image>>)
    requires forall i :: 0 <= i < |listing| ==> listing[i].decoded.Some?
    ensures Decodable(listing) == listing
    decreases |listing|
  {
    if listing != [] {
      var init := listing[..|listing| - 1];
      DecodableAll(init);
      assert init + [listing[|listing| - 1]] == listing;
    }
  }
}
