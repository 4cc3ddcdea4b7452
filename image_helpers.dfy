/**
 * The `img_tag` and `img_tag_sp` view helpers: file names for high-density
 * and mobile variants of an image, and the attribute maps handed to the
 * framework's `image_tag`, which is represented by the descriptor it is called with.
 */
module ImageHelpers {

  import opened Wrappers
  import opened Strings

  /** `s[i..]` is matched by `\.\w+$`: a dot and one or more word characters up to the end. */
  predicate ExtensionAt(s: string, i: int) {
    0 <= i && i + 1 < |s| && s[i] == '.' && forall j :: i < j < |s| ==> IsWordChar(s[j])
  }

  /** Length of the longest run of word characters that ends the string. */
  function WordSuffixLength(s: string): (k: nat)
    ensures k <= |s|
    ensures forall j :: |s| - k <= j < |s| ==> IsWordChar(s[j])
    ensures k < |s| ==> !IsWordChar(s[|s| - k - 1])
  {
    if s == [] || !IsWordChar(s[|s| - 1]) then 0
    else 1 + WordSuffixLength(s[..|s| - 1])
  }

  /** Position of the dot where `/\.\w+$/` matches, if it matches at all. */
  function ExtensionDot(s: string): (r: Option<nat>)
    ensures r.Some? ==> ExtensionAt(s, r.value)
  {
    var k := WordSuffixLength(s);
    if 0 < k < |s| && s[|s| - k - 1] == '.' then Some(|s| - k - 1) else None
  }

  /** The match position found is exactly the one the pattern describes: there is at most one. */
  lemma ExtensionDotSpec(s: string, i: int)
    ensures ExtensionDot(s) == Some(i) <==> ExtensionAt(s, i)
  {
    var k := WordSuffixLength(s);
    if ExtensionAt(s, i) {
      assert !IsWordChar(s[i]);
    }
  }

  lemma ExtensionDotNone(s: string)
    ensures ExtensionDot(s).None? <==> forall i :: !ExtensionAt(s, i)
  {
    if ExtensionDot(s).Some? {
      ExtensionDotSpec(s, ExtensionDot(s).value);
    } else {
      forall i ensures !ExtensionAt(s, i) {
        ExtensionDotSpec(s, i);
      }
    }
  }

  /** `s.gsub(/\.\w+$/, marker + '\0')`: the marker goes in front of the extension, if any. */
  function InsertMarker(s: string, marker: string): string
  {
    match ExtensionDot(s)
    case None => s
    case Some(i) => s[..i] + marker + s[i..]
  }

  /** The marker lands immediately before the `.`-and-word-characters suffix; without one, `s` is unchanged. */
  lemma InsertMarkerSpec(s: string, marker: string)
    ensures forall i :: ExtensionAt(s, i) ==> InsertMarker(s, marker) == s[..i] + marker + s[i..]
    ensures (forall i :: !ExtensionAt(s, i)) ==> InsertMarker(s, marker) == s
  {
    ExtensionDotNone(s);
    forall i | ExtensionAt(s, i) ensures InsertMarker(s, marker) == s[..i] + marker + s[i..] {
      ExtensionDotSpec(s, i);
    }
  }

  /** Removing the marker again gives back the source name: the insertion loses nothing. */
  lemma InsertMarkerRemovable(s: string, marker: string, i: int)
    requires ExtensionAt(s, i)
    ensures var r := InsertMarker(s, marker);
      |r| == |s| + |marker| && r[..i] + r[i + |marker|..] == s && r[i..i + |marker|] == marker
  {
    InsertMarkerSpec(s, marker);
    var r := InsertMarker(s, marker);
    assert r == s[..i] + marker + s[i..];
    assert r[..i] == s[..i];
    assert r[i + |marker|..] == s[i..];
  }

  /** The extension survives the insertion, shifted by the marker's length. */
  lemma ExtensionKept(s: string, marker: string, i: int)
    requires ExtensionAt(s, i)
    ensures ExtensionAt(InsertMarker(s, marker), i + |marker|)
  {
    InsertMarkerSpec(s, marker);
    var r := InsertMarker(s, marker);
    assert r == s[..i] + marker + s[i..];
    forall j | i + |marker| < j < |r| ensures IsWordChar(r[j]) {
      assert r[j] == s[j - |marker|];
    }
  }

  lemma InsertMarkerAt(s: string, marker: string, i: int)
    requires ExtensionAt(s, i)
    ensures InsertMarker(s, marker) == s[..i] + marker + s[i..]
  {
    ExtensionDotSpec(s, i);
  }

  /** Inserting one marker and then another is inserting both at once. */
  lemma MarkersCompose(s: string, a: string, b: string)
    ensures InsertMarker(InsertMarker(s, a), b) == InsertMarker(s, a + b)
  {
    var d := ExtensionDot(s);
    if d.None? {
      ExtensionDotNone(s);
      InsertMarkerSpec(s, a);
      InsertMarkerSpec(s, a + b);
    } else {
      var i := d.value;
      ExtensionDotSpec(s, i);
      var r := s[..i] + a + s[i..];
      InsertMarkerAt(s, a, i);
      ExtensionKept(s, a, i);
      InsertMarkerAt(r, b, i + |a|);
      InsertMarkerAt(s, a + b, i);
      assert r[..i + |a|] == s[..i] + a;
      assert r[i + |a|..] == s[i..];
      assert (s[..i] + a) + b + s[i..] == s[..i] + (a + b) + s[i..];
    }
  }

  const RetinaMarker: string := "@2x"
  const MobileMarker: string := "-sp"

  /** `retina_src` in `img_tag`. */
  function RetinaSrc(src: string): string {
    InsertMarker(src, RetinaMarker)
  }

  /** `sp_src` in `img_tag_sp`. */
  function MobileSrc(src: string): string {
    InsertMarker(src, MobileMarker)
  }

  /** An attribute map, keyed by the attribute symbol's name. */
  type Attrs = map<string, string>

  /** A call `image_tag(src, attrs)`: the markup that the framework renders from it. */
  datatype ImageTag = ImageTag(src: string, attrs: Attrs)

  /** `a.merge(b) { |_key, v0, v1| "#{v0} #{v1}" }`: on a shared key the two values are joined by a space. */
  function MergeJoiningValues(a: Attrs, b: Attrs): (m: Attrs)
    ensures m.Keys == a.Keys + b.Keys
    ensures forall k :: k in a && k in b ==> m[k] == a[k] + " " + b[k]
    ensures forall k :: k in b && k !in a ==> m[k] == b[k]
    ensures forall k :: k in a && k !in b ==> m[k] == a[k]
  {
    map k | k in a.Keys + b.Keys :: if k in a && k in b then a[k] + " " + b[k] else if k in b then b[k] else a[k]
  }

  /** `img_tag(src, options)`: one image whose `srcset` names the retina file at 2x density. */
  function ImgTag(src: string, options: Attrs): (markup: seq<ImageTag>)
    ensures |markup| == 1 && markup[0].src == src
    ensures markup[0].attrs.Keys == options.Keys + {"srcset"}
    ensures markup[0].attrs["srcset"] == RetinaSrc(src) + " 2x"
    ensures forall k :: k in options && k != "srcset" ==> markup[0].attrs[k] == options[k]
  {
    [ImageTag(src, options["srcset" := RetinaSrc(src) + " 2x"])]
  }

  /** `pc_opt`: the caller's options with `pc` joined onto the class. */
  function DesktopAttrs(options: Attrs): (m: Attrs)
    ensures m.Keys == options.Keys + {"class"}
    ensures m["class"] == if "class" in options then options["class"] + " pc" else "pc"
    ensures forall k :: k in options && k != "class" ==> m[k] == options[k]
  {
    MergeJoiningValues(options, map["class" := "pc"])
  }

  /** `sp_opt`: the caller's options with `sp` joined onto the class and `_sp` appended to the id. */
  function MobileAttrs(options: Attrs): (m: Attrs)
    ensures m.Keys == options.Keys + {"class"}
    ensures m["class"] == if "class" in options then options["class"] + " sp" else "sp"
    ensures "id" in options ==> m["id"] == options["id"] + "_sp"
    ensures forall k :: k in options && k != "class" && k != "id" ==> m[k] == options[k]
  {
    var merged := MergeJoiningValues(options, map["class" := "sp"]);
    if "id" in merged then merged["id" := merged["id"] + "_sp"] else merged
  }

  /** `img_tag_sp(src, options)`: the desktop image, then the mobile image. */
  function ImgTagSp(src: string, options: Attrs): seq<ImageTag>
  {
    ImgTag(src, DesktopAttrs(options)) + ImgTag(MobileSrc(src), MobileAttrs(options))
  }

  /** What the two images of `img_tag_sp` carry, attribute by attribute. */
  lemma ImgTagSpSpec(src: string, options: Attrs)
    ensures var markup := ImgTagSp(src, options);
      && markup[0].src == src && markup[1].src == MobileSrc(src)
      && markup[0].attrs.Keys == markup[1].attrs.Keys == options.Keys + {"class", "srcset"}
      && markup[0].attrs["class"] == (if "class" in options then options["class"] + " pc" else "pc")
      && markup[1].attrs["class"] == (if "class" in options then options["class"] + " sp" else "sp")
      && ("id" in options ==> markup[0].attrs["id"] == options["id"] && markup[1].attrs["id"] == options["id"] + "_sp")
      && markup[0].attrs["srcset"] == RetinaSrc(src) + " 2x"
      && markup[1].attrs["srcset"] == InsertMarker(src, "-sp@2x") + " 2x"
      && (forall k :: k in options && k != "class" && k != "id" && k != "srcset" ==>
            markup[0].attrs[k] == options[k] && markup[1].attrs[k] == options[k])
  {
    MobileRetinaSrc(src);
    var markup := ImgTagSp(src, options);
    var pc := DesktopAttrs(options);
    var sp := MobileAttrs(options);
    assert markup[0].attrs.Keys == pc.Keys + {"srcset"};
    assert markup[1].attrs.Keys == sp.Keys + {"srcset"};
  }

  /** The mobile image's `srcset` file carries both markers, `-sp` first. */
  lemma MobileRetinaSrc(src: string)
    ensures RetinaSrc(MobileSrc(src)) == InsertMarker(src, "-sp@2x")
  {
    MarkersCompose(src, MobileMarker, RetinaMarker);
    assert MobileMarker + RetinaMarker == "-sp@2x";
  }

  lemma RetinaExample()
    ensures ImgTag("photo.png", map[])[0].attrs["srcset"] == "photo@2x.png 2x"
  {
    var s := "photo.png";
    assert ExtensionAt(s, 5);
    InsertMarkerAt(s, RetinaMarker, 5);
    assert s[..5] + RetinaMarker + s[5..] == "photo@2x.png";
  }

  lemma MobileExample()
    ensures var m := ImgTagSp("photo.png", map["id" := "hero"]);
      m[0].attrs["class"] == "pc" && m[1].attrs["class"] == "sp" &&
      m[1].attrs["id"] == "hero_sp" && m[0].attrs["id"] == "hero" && m[1].src == "photo-sp.png"
  {
    var s, o := "photo.png", map["id" := "hero"];
    var pc, sp := DesktopAttrs(o), MobileAttrs(o);
    assert pc["class"] == "pc" && pc["id"] == "hero";
    assert sp["class"] == "sp" && sp["id"] == "hero_sp";
    assert ExtensionAt(s, 5);
    InsertMarkerAt(s, MobileMarker, 5);
    assert s[..5] + MobileMarker + s[5..] == "photo-sp.png";
  }

  /** A name with no extension keeps no marker: `gsub` finds nothing to replace. */
  lemma NoExtensionExample()
    ensures RetinaSrc("photo") == "photo" && RetinaSrc("archive.tar-gz") == "archive.tar-gz"
  {
    InsertMarkerSpec("photo", RetinaMarker);
    InsertMarkerSpec("archive.tar-gz", RetinaMarker);
    assert !IsWordChar("archive.tar-gz"[11]);
  }
}
