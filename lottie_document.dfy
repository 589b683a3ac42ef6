/**
 * The Lottie document `create_lottie_json` builds: one image asset and one
 * image layer per frame, each layer shown for exactly one timeline unit.
 */
module LottieDocument {
  import opened PyText

  /** A property that is not animated: `{"a": 0, "k": value}`. */
  datatype Static<T> = Static(a: int, k: T)

  /** The layer transform `ks`: opacity, position, anchor point and scale. */
  datatype Transform = Transform(o: Static<int>, p: Static<seq<real>>, a: Static<seq<real>>, s: Static<seq<int>>)

  /** An embedded image asset: `u` is the external folder, `p` the data URI, `e == 1` marks it embedded. */
  datatype Asset = Asset(id: string, w: int, h: int, u: string, p: string, e: int)

  /** A timeline layer of type `ty` that shows asset `refId` from `ip` to `op`, starting at `st`. */
  datatype Layer = Layer(ddd: int, ind: int, ty: int, nm: string, refId: string, ks: Transform, ip: int, op: int, st: int)

  /** The whole animation: version, frame rate, in/out points, canvas size, name, assets and layers. */
  datatype Document = Document(
    v: string, fr: int, ip: int, op: int, w: int, h: int, nm: string, ddd: int,
    assets: seq<Asset>, layers: seq<Layer>)

  /** Timeline units each frame is shown for. */
  const FrameDuration: int := 1
  /** Lottie's layer type for an image layer. */
  const ImageLayer: int := 2
  const LottieVersion: string := "5.5.2"
  const AnimationName: string := "video_animation"

  /** Layer `i` shows frame `i` (asset `refId`) full-size on a `w` by `h` canvas during `[i, i + 1)`. */
  ghost predicate ShowsFrame(l: Layer, i: nat, refId: string, w: int, h: int) {
    && l.ddd == 0 && l.ty == ImageLayer
    && l.ind == i + 1
    && l.nm == "Frame " + NatToString(i)
    && l.refId == refId
    && l.ip == i && l.st == i && l.op == i + 1
    && l.ks.o == Static(0, 100)
    && l.ks.p == Static(0, [w as real / 2.0, h as real / 2.0])
    && l.ks.a == l.ks.p
    && l.ks.s == Static(0, [100, 100])
  }

  /** `doc` is what `create_lottie_json(frames, w, h, fps)` returns. */
  ghost predicate Assembles(doc: Document, frames: seq<Asset>, w: int, h: int, fps: int) {
    && doc.v == LottieVersion && doc.nm == AnimationName && doc.ddd == 0
    && doc.fr == fps && doc.w == w && doc.h == h
    && doc.ip == 0 && doc.op == |frames|
    && doc.assets == frames
    && |doc.layers| == |frames|
    && forall i :: 0 <= i < |frames| ==> ShowsFrame(doc.layers[i], i, frames[i].id, w, h)
  }

  /** `create_lottie_json`: appends one layer per frame, then wraps assets and layers in the document. */
  method CreateLottieJson(frames: seq<Asset>, w: int, h: int, fps: int) returns (doc: Document)
    ensures Assembles(doc, frames, w, h, fps)
  {
    var precompLayers: seq<Layer> := [];
    for i := 0 to |frames|
      invariant |precompLayers| == i
      invariant forall k :: 0 <= k < i ==> ShowsFrame(precompLayers[k], k, frames[k].id, w, h)
    {
      var centre := [w as real / 2.0, h as real / 2.0];
      var layer := Layer(
        ddd := 0,
        ind := i + 1,
        ty := ImageLayer,
        nm := "Frame " + NatToString(i),
        refId := frames[i].id,
        ks := Transform(o := Static(0, 100), p := Static(0, centre), a := Static(0, centre), s := Static(0, [100, 100])),
        ip := i * FrameDuration,
        op := (i + 1) * FrameDuration,
        st := i * FrameDuration);
      precompLayers := precompLayers + [layer];
    }
    var animationLength := |frames| * FrameDuration;
    doc := Document(
      v := LottieVersion, fr := fps, ip := 0, op := animationLength, w := w, h := h,
      nm := AnimationName, ddd := 0, assets := frames, layers := precompLayers);
  }

  /** Layer `l` is on screen at time `t`. */
  predicate Shown(l: Layer, t: int) {
    l.ip <= t < l.op
  }

  /**
   * The layers tile the document's timeline: every layer lies inside
   * `[doc.ip, doc.op)`, each follows the previous one without gap or
   * overlap, and at every time exactly one layer is shown.
   */
  lemma LayersTileTimeline(doc: Document, frames: seq<Asset>, w: int, h: int, fps: int)
    requires Assembles(doc, frames, w, h, fps)
    ensures forall i :: 0 <= i < |doc.layers| ==> doc.ip <= doc.layers[i].ip < doc.layers[i].op <= doc.op
    ensures forall i :: 0 < i < |doc.layers| ==> doc.layers[i].ip == doc.layers[i - 1].op
    ensures forall t, i :: doc.ip <= t < doc.op && 0 <= i < |doc.layers| ==>
      (Shown(doc.layers[i], t) <==> i == t)
  {
  }

  /** Layer numbers run `1..n` without repetition, and layer names differ. */
  lemma LayerIdentitiesDistinct(doc: Document, frames: seq<Asset>, w: int, h: int, fps: int)
    requires Assembles(doc, frames, w, h, fps)
    ensures forall i, j :: 0 <= i < j < |doc.layers| ==>
      doc.layers[i].ind != doc.layers[j].ind && doc.layers[i].nm != doc.layers[j].nm
  {
    forall i, j | 0 <= i < j < |doc.layers|
      ensures doc.layers[i].nm != doc.layers[j].nm
    {
      var a, b := NatToString(i), NatToString(j);
      NatToStringInjective(i, j);
      assert doc.layers[i].nm[6..] == a && doc.layers[j].nm[6..] == b;
    }
  }

  /** When asset ids are distinct, layer `i` refers to asset `i` and to no other. */
  lemma LayerRefersToOwnAsset(doc: Document, frames: seq<Asset>, w: int, h: int, fps: int)
    requires Assembles(doc, frames, w, h, fps)
    requires forall i, j :: 0 <= i < j < |frames| ==> frames[i].id != frames[j].id
    ensures forall i, j :: 0 <= i < |doc.layers| && 0 <= j < |doc.assets| ==>
      (doc.layers[i].refId == doc.assets[j].id <==> i == j)
  {
    forall i, j | 0 <= i < |doc.layers| && 0 <= j < |doc.assets| && i != j
      ensures doc.layers[i].refId != doc.assets[j].id
    {
      if i > j {
        assert frames[j].id != frames[i].id;
      }
    }
  }
}
