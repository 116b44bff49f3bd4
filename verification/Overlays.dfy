/// What a loaded image contains: sections laid over one another (pef_load_section, LoadImage).

module Overlays {
  import opened Translation
  import opened Bytes

  /// The bytes rt_copy_memory_safe stores: the source, or zeros over the whole destination when
  /// the source is too long.
  function SafeBytes(src: seq<Byte>, dstSize: nat): (bs: seq<Byte>)
    ensures |bs| <= dstSize
  {
    if |src| > dstSize then seq(dstSize, _ => 0) else src
  }

  function Zeros(n: nat): seq<Byte> { seq(n, _ => 0) }

  /// `content` over a window of `size` zero bytes.
  function Padded(content: seq<Byte>, size: nat): seq<Byte>
    requires |content| <= size
  {
    content + Zeros(size - |content|)
  }

  /// What a section shows once it is loaded: its bytes, then zeros; zeros only where the copy goes to
  /// the null address.
  function SectionContent(base: nat, size: nat, src: seq<Byte>): (content: seq<Byte>)
    ensures |content| == size
  {
    Padded(if base == 0 then [] else SafeBytes(src, size), size)
  }

  /// img with `data` written over it from index at on.
  function Overlaid(img: seq<Byte>, at: nat, data: seq<Byte>): (r: seq<Byte>)
    requires at + |data| <= |img|
    ensures |r| == |img|
  {
    img[..at] + data + img[at + |data|..]
  }

  // ---- the sections of a PE32+ image -----------------------------------------------------

  /// The section header fields LoadImage reads.
  datatype Section = Section(address: nat, rawSize: nat, rawPointer: nat)

  /// The bounds test of LoadImage, difference by difference.
  predicate Rejects(sec: Section, imageSize: nat, blobSize: nat) {
    || sec.address > imageSize
    || sec.rawSize > imageSize - sec.address
    || sec.rawPointer > blobSize
    || sec.rawSize > blobSize - sec.rawPointer
  }

  function RawBytes(sec: Section, blob: seq<Byte>): (bs: seq<Byte>)
    requires sec.rawPointer + sec.rawSize <= |blob|
    ensures |bs| == sec.rawSize
  {
    blob[sec.rawPointer..sec.rawPointer + sec.rawSize]
  }

  /// The image the headers describe: the sections in order over the bytes below them; None when
  /// a section leaves the image or the blob.
  function Overlay(img: seq<Byte>, blob: seq<Byte>, secs: seq<Section>): Option<seq<Byte>>
    decreases |secs|
  {
    if secs == [] then Some(img)
    else if secs[0].rawSize == 0 then Overlay(img, blob, secs[1..])
    else if Rejects(secs[0], |img|, |blob|) then None
    else Overlay(Overlaid(img, secs[0].address, RawBytes(secs[0], blob)), blob, secs[1..])
  }

  lemma {:induction false} OverlayLength(img: seq<Byte>, blob: seq<Byte>, secs: seq<Section>)
    ensures Overlay(img, blob, secs).Some? <==> SectionsFit(secs, |img|, |blob|)
    ensures Overlay(img, blob, secs).Some? ==> |Overlay(img, blob, secs).value| == |img|
    decreases |secs|
  {
    if secs != [] {
      assert forall sec :: sec in secs <==> sec == secs[0] || sec in secs[1..];
      if secs[0].rawSize == 0 {
        OverlayLength(img, blob, secs[1..]);
      } else if !Rejects(secs[0], |img|, |blob|) {
        OverlayLength(Overlaid(img, secs[0].address, RawBytes(secs[0], blob)), blob, secs[1..]);
      }
    }
  }

  /// No section leaves the image or the file.
  predicate SectionsFit(secs: seq<Section>, imageSize: nat, blobSize: nat) {
    forall sec :: sec in secs ==> sec.rawSize == 0 || !Rejects(sec, imageSize, blobSize)
  }

  function SectionAddress(base: nat, sec: Section): nat { base + sec.address }

  /// The sections LoadImage copies: rt_copy_memory_safe refuses a null destination, and nobody looks
  /// at its answer.
  function Stored(base: nat, secs: seq<Section>): seq<Section>
    decreases |secs|
  {
    if secs == [] then []
    else if SectionAddress(base, secs[0]) == 0 then Stored(base, secs[1..])
    else [secs[0]] + Stored(base, secs[1..])
  }

  /// What a loaded image shows: every section is checked, those that are copied are laid in order
  /// over img.
  function Shows(base: nat, img: seq<Byte>, blob: seq<Byte>, secs: seq<Section>): Option<seq<Byte>> {
    if SectionsFit(secs, |img|, |blob|) then Overlay(img, blob, Stored(base, secs)) else None
  }

  lemma StoredElsewhere(base: nat, secs: seq<Section>)
    requires base > 0 || forall sec :: sec in secs ==> sec.address > 0
    ensures Stored(base, secs) == secs
    decreases |secs|
  {
    if secs != [] {
      assert secs[0] in secs && forall sec :: sec in secs[1..] ==> sec in secs;
      StoredElsewhere(base, secs[1..]);
    }
  }

  // One section of the loop, seen from what is shown.
  lemma ShowsStep(base: nat, img: seq<Byte>, blob: seq<Byte>, secs: seq<Section>)
    requires secs != []
    ensures var sec, shown := secs[0], Shows(base, img, blob, secs);
            if sec.rawSize == 0 then shown == Shows(base, img, blob, secs[1..])
            else if Rejects(sec, |img|, |blob|) then shown == None
            else if SectionAddress(base, sec) == 0 then shown == Shows(base, img, blob, secs[1..])
            else shown == Shows(base, Overlaid(img, sec.address, RawBytes(sec, blob)), blob, secs[1..])
  {
    assert forall sec :: sec in secs <==> sec == secs[0] || sec in secs[1..];
    assert ([secs[0]] + Stored(base, secs[1..]))[1..] == Stored(base, secs[1..]);
  }

  lemma NothingToShow(base: nat, img: seq<Byte>, blob: seq<Byte>)
    ensures Shows(base, img, blob, []) == Some(img)
  {
  }

  // ---- byte by byte ----------------------------------------------------------------------

  predicate Covers(sec: Section, x: nat) { sec.address <= x < sec.address + sec.rawSize }

  /// The byte at offset x of an image: the last section that covers it decides.
  function ByteOf(img: seq<Byte>, blob: seq<Byte>, secs: seq<Section>, x: nat): Byte
    requires x < |img| && SectionsFit(secs, |img|, |blob|)
    decreases |secs|
  {
    if secs == [] then img[x]
    else
      var k := |secs| - 1;
      if Covers(secs[k], x) then blob[secs[k].rawPointer + x - secs[k].address]
      else ByteOf(img, blob, secs[..k], x)
  }

  // The bytes under the sections, with the first of them laid over.
  function Under(img: seq<Byte>, blob: seq<Byte>, sec: Section): (r: seq<Byte>)
    requires sec.rawSize == 0 || !Rejects(sec, |img|, |blob|)
    ensures |r| == |img|
  {
    if sec.rawSize == 0 then img else Overlaid(img, sec.address, RawBytes(sec, blob))
  }

  lemma {:induction false} FirstUnder(img: seq<Byte>, blob: seq<Byte>, secs: seq<Section>, x: nat)
    requires x < |img| && SectionsFit(secs, |img|, |blob|) && secs != []
    ensures SectionsFit(secs[1..], |img|, |blob|) && secs[0] in secs
    ensures ByteOf(img, blob, secs, x) == ByteOf(Under(img, blob, secs[0]), blob, secs[1..], x)
    decreases |secs|
  {
    assert secs[0] in secs && forall sec :: sec in secs[1..] ==> sec in secs;
    var k := |secs| - 1;
    if k > 0 {
      assert secs[..k][1..] == secs[1..][..k - 1] && secs[..k][0] == secs[0];
      assert secs[k] == secs[1..][k - 1];
      assert forall sec :: sec in secs[..k] ==> sec in secs;
      FirstUnder(img, blob, secs[..k], x);
    }
  }

  /// The overlay of sections that fit, byte by byte.
  lemma {:induction false} OverlayBytes(img: seq<Byte>, blob: seq<Byte>, secs: seq<Section>, x: nat)
    requires x < |img| && SectionsFit(secs, |img|, |blob|)
    ensures Overlay(img, blob, secs).Some? && |Overlay(img, blob, secs).value| == |img|
    ensures Overlay(img, blob, secs).value[x] == ByteOf(img, blob, secs, x)
    decreases |secs|
  {
    OverlayLength(img, blob, secs);
    if secs != [] {
      FirstUnder(img, blob, secs, x);
      OverlayBytes(Under(img, blob, secs[0]), blob, secs[1..], x);
    }
  }

  lemma StoredFit(base: nat, secs: seq<Section>, imageSize: nat, blobSize: nat)
    requires SectionsFit(secs, imageSize, blobSize)
    ensures SectionsFit(Stored(base, secs), imageSize, blobSize)
    decreases |secs|
  {
    if secs != [] {
      assert secs[0] in secs && forall sec :: sec in secs[1..] ==> sec in secs;
      StoredFit(base, secs[1..], imageSize, blobSize);
    }
  }

  lemma {:induction false} StoredSnoc(base: nat, secs: seq<Section>, sec: Section)
    ensures Stored(base, secs + [sec]) == Stored(base, secs) + if SectionAddress(base, sec) == 0 then [] else [sec]
    decreases |secs|
  {
    if secs == [] {
      assert secs + [sec] == [sec] && [sec][1..] == [];
    } else {
      assert (secs + [sec])[1..] == secs[1..] + [sec];
      StoredSnoc(base, secs[1..], sec);
    }
  }

  /// Section sec is copied over the byte at offset x.
  predicate Lands(base: nat, sec: Section, x: nat) { SectionAddress(base, sec) > 0 && Covers(sec, x) }

  /// A byte that no section lands on stays.
  lemma {:induction false} UntouchedByte(img: seq<Byte>, blob: seq<Byte>, base: nat, secs: seq<Section>, x: nat)
    requires x < |img| && SectionsFit(secs, |img|, |blob|) && forall sec :: sec in secs ==> !Lands(base, sec, x)
    ensures SectionsFit(Stored(base, secs), |img|, |blob|) && ByteOf(img, blob, Stored(base, secs), x) == img[x]
    decreases |secs|
  {
    StoredFit(base, secs, |img|, |blob|);
    if secs != [] {
      var front, last := secs[..|secs| - 1], secs[|secs| - 1];
      LastOf(front, last, secs);
      UntouchedByte(img, blob, base, front, x);
      MoreStored(img, blob, base, front, last, x);
    }
  }

  lemma LastOf(front: seq<Section>, last: Section, secs: seq<Section>)
    requires secs != [] && front == secs[..|secs| - 1] && last == secs[|secs| - 1]
    ensures secs == front + [last] && forall sec :: sec in secs <==> sec in front || sec == last
  {
    assert secs == front + [last];
  }

  lemma MoreStored(img: seq<Byte>, blob: seq<Byte>, base: nat, secs: seq<Section>, last: Section, x: nat)
    requires x < |img| && SectionsFit(secs, |img|, |blob|) && (last.rawSize == 0 || !Rejects(last, |img|, |blob|))
    ensures SectionsFit(Stored(base, secs), |img|, |blob|) && SectionsFit(Stored(base, secs + [last]), |img|, |blob|)
    ensures Lands(base, last, x) ==> 0 <= last.rawPointer + x - last.address < |blob|
    ensures ByteOf(img, blob, Stored(base, secs + [last]), x)
            == if Lands(base, last, x) then blob[last.rawPointer + x - last.address]
               else ByteOf(img, blob, Stored(base, secs), x)
  {
    StoredFit(base, secs, |img|, |blob|);
    StoredSnoc(base, secs, last);
    LastByte(img, blob, Stored(base, secs), last, x);
    assert Stored(base, secs) + [] == Stored(base, secs);
  }

  /// The last section that lands on a byte decides it.
  lemma {:induction false} StoredByte(img: seq<Byte>, blob: seq<Byte>, base: nat, before: seq<Section>, sec: Section,
                                      after: seq<Section>, x: nat)
    requires x < |img| && SectionsFit(before + [sec] + after, |img|, |blob|)
    requires Lands(base, sec, x) && forall t :: t in after ==> !Lands(base, t, x)
    ensures SectionsFit(Stored(base, before + [sec] + after), |img|, |blob|)
    ensures 0 <= sec.rawPointer + x - sec.address < |blob|
    ensures ByteOf(img, blob, Stored(base, before + [sec] + after), x) == blob[sec.rawPointer + x - sec.address]
    decreases |after|
  {
    hide Lands, Stored, ByteOf;
    if after == [] {
      assert before + [sec] + after == before + [sec];
      MoreStored(img, blob, base, before, sec, x);
    } else {
      var front, last := after[..|after| - 1], after[|after| - 1];
      LastOf(front, last, after);
      assert before + [sec] + after == before + [sec] + front + [last];
      StoredByte(img, blob, base, before, sec, front, x);
      MoreStored(img, blob, base, before + [sec] + front, last, x);
    }
  }

  lemma LastByte(img: seq<Byte>, blob: seq<Byte>, secs: seq<Section>, last: Section, x: nat)
    requires x < |img| && SectionsFit(secs, |img|, |blob|) && (last.rawSize == 0 || !Rejects(last, |img|, |blob|))
    ensures SectionsFit(secs + [last], |img|, |blob|)
    ensures Covers(last, x) ==> 0 <= last.rawPointer + x - last.address < |blob|
    ensures ByteOf(img, blob, secs + [last], x)
            == if Covers(last, x) then blob[last.rawPointer + x - last.address] else ByteOf(img, blob, secs, x)
  {
    assert (secs + [last])[..|secs|] == secs;
  }

  /// Leaving out the sections that are copied nowhere makes no difference to any byte: always so, but
  /// at base 0, where those are the sections at address 0.
  ghost predicate NothingLost(base: nat, imageSize: nat, blob: seq<Byte>, secs: seq<Section>)
    requires SectionsFit(secs, imageSize, |blob|)
  {
    StoredFit(base, secs, imageSize, |blob|);
    base > 0
    || forall x: nat | x < imageSize ::
         ByteOf(Zeros(imageSize), blob, Stored(base, secs), x) == ByteOf(Zeros(imageSize), blob, secs, x)
  }

  lemma ShowsAll(base: nat, imageSize: nat, blob: seq<Byte>, secs: seq<Section>)
    requires SectionsFit(secs, imageSize, |blob|)
    ensures Shows(base, Zeros(imageSize), blob, secs).Some? && Overlay(Zeros(imageSize), blob, secs).Some?
    ensures |Shows(base, Zeros(imageSize), blob, secs).value| == imageSize
    ensures |Overlay(Zeros(imageSize), blob, secs).value| == imageSize
    ensures Shows(base, Zeros(imageSize), blob, secs) == Overlay(Zeros(imageSize), blob, secs)
            <==> NothingLost(base, imageSize, blob, secs)
  {
    hide Overlay, SectionsFit, ByteOf, Stored;
    var img := Zeros(imageSize);
    StoredFit(base, secs, imageSize, |blob|);
    OverlayLength(img, blob, secs);
    OverlayLength(img, blob, Stored(base, secs));
    if base > 0 {
      StoredElsewhere(base, secs);
    }
    var a, b := Overlay(img, blob, Stored(base, secs)).value, Overlay(img, blob, secs).value;
    forall x: nat | x < imageSize
      ensures a[x] == ByteOf(img, blob, Stored(base, secs), x) && b[x] == ByteOf(img, blob, secs, x)
    {
      OverlayBytes(img, blob, Stored(base, secs), x);
      OverlayBytes(img, blob, secs, x);
    }
    if base == 0 && NothingLost(base, imageSize, blob, secs) {
      assert forall x: nat | x < imageSize :: a[x] == b[x];
      assert a == b;
    }
  }
}
