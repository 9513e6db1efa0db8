/** What converting whole images keeps and what it loses. */
module Conversion {
  import opened Words
  import opened Pixels
  import opened Framebuffers

  predicate CanonicalWords(l: Layout, ws: seq<word>) {
    forall i | 0 <= i < |ws| :: Canonical(l, ws[i])
  }

  /** Converting cuts each channel of each pixel to the target's masks, whichever path is taken. */
  lemma ConvertQuantises(src: Image, to: Layout, x: nat, y: nat)
    requires ValidImage(src) && WellFormed(src.layout) && Disjoint(to)
    requires x < src.width && y < src.height
    ensures ValidImage(Converted(src, to))
    ensures ColourAt(Converted(src, to), x, y) == Quantised(to, ColourAt(src, x, y))
  {
    hide Pack, Unpack, Quantised, WellFormed, Disjoint;
    assert Supported(to.bpp) by {
      Wf(to);
    }
    ConvertedValid(src, to);
    IndexBound(src.width, src.height, x, y);
    var c := src.words[y * src.width + x];
    if src.layout == to {
      UnpackQuantised(to, c);
    } else {
      PackUnpack(to, Unpack(src.layout, c));
    }
  }

  lemma Wf(l: Layout)
    requires Disjoint(l)
    ensures Supported(l.bpp)
  {
  }

  /** On equal layouts the block copy shows what the slow path would show. */
  lemma FastPathShowsTheSame(l: Layout, ws: seq<word>, i: nat)
    requires WellFormed(l) && i < |ws|
    ensures Unpack(l, Repacked(l, l, ws)[i]) == Unpack(l, ws[i])
  {
    hide Pack, Unpack, Quantised, Disjoint;
    PackUnpack(l, Unpack(l, ws[i]));
    UnpackQuantised(l, ws[i]);
  }

  /** ... and stores the same words exactly when no pixel has a bit outside its fields. */
  lemma FastPathStoresTheSame(l: Layout, ws: seq<word>)
    requires WellFormed(l)
    ensures Repacked(l, l, ws) == ws <==> CanonicalWords(l, ws)
  {
    hide Pack, Unpack, InFields, WellFormed;
    forall i | 0 <= i < |ws|
      ensures Repacked(l, l, ws)[i] == ws[i] <==> Canonical(l, ws[i])
    {
      UnpackPack(l, ws[i]);
    }
    if Repacked(l, l, ws) == ws {
      forall i | 0 <= i < |ws|
        ensures Canonical(l, ws[i])
      {
        assert Repacked(l, l, ws)[i] == ws[i];
      }
    }
  }

  /** Re-packing leaves canonical words, so doing it twice changes nothing more. */
  lemma RepackTwice(from: Layout, to: Layout, ws: seq<word>)
    requires WellFormed(to)
    ensures CanonicalWords(to, Repacked(from, to, ws))
    ensures Repacked(to, to, Repacked(from, to, ws)) == Repacked(from, to, ws)
  {
    hide Pack, Unpack, Canonical, WellFormed;
    forall i | 0 <= i < |ws|
      ensures Canonical(to, Repacked(from, to, ws)[i])
    {
      PackCanonical(to, Unpack(from, ws[i]));
    }
    FastPathStoresTheSame(to, Repacked(from, to, ws));
  }

  /** An image comes back unharmed from any layout whose channels are at least as wide. */
  lemma WideningIsLossless(img: Image, to: Layout)
    requires WellFormed(img.layout) && WellFormed(to) && Narrower(img.layout, to)
    requires CanonicalWords(img.layout, img.words)
    ensures Converted(Converted(img, to), img.layout) == img
  {
    hide Pack, Unpack, Canonical, WellFormed, Narrower;
    if img.layout != to {
      forall i | 0 <= i < |img.words|
        ensures Pack(img.layout, Unpack(to, Pack(to, Unpack(img.layout, img.words[i])))) == img.words[i]
      {
        WidenAndBack(img.layout, to, img.words[i]);
      }
      assert Converted(Converted(img, to), img.layout).words == img.words;
    }
  }
}
