/// Physical memory as 64-bit words. Page tables, free-list links and image bytes share it.

module PhysicalMemory {
  import opened Words

  /// Word `idx` of page frame `frame`: the physical address 4096 * frame + 8 * idx.
  datatype Loc = Loc(frame: nat, idx: nat)

  /// Words never written read as zero.
  type Memory = map<Loc, Word>

  function Rd(m: Memory, f: nat, i: nat): Word {
    if Loc(f, i) in m then m[Loc(f, i)] else ZERO_WORD
  }

  function Wr(m: Memory, f: nat, i: nat, w: Word): Memory {
    m[Loc(f, i) := w]
  }

  function ZeroFrame(m: Memory, f: nat): Memory {
    m + map i: nat | i < 512 :: Loc(f, i) := ZERO_WORD
  }

  lemma ZeroFrameReads(m: Memory, f: nat, g: nat, i: nat)
    ensures Rd(ZeroFrame(m, f), g, i) == if g == f && i < 512 then ZERO_WORD else Rd(m, g, i)
  {
  }

  /// Memory with the words ws at the start of frame f.
  function FillWords(m: Memory, f: nat, ws: seq<Word>): Memory {
    m + map i: nat | i < |ws| :: Loc(f, i) := ws[i]
  }

  lemma FillWordsReads(m: Memory, f: nat, ws: seq<Word>)
    ensures forall i: nat | i < |ws| :: Rd(FillWords(m, f, ws), f, i) == ws[i]
    ensures forall g, i: nat | g != f || i >= |ws| :: Rd(FillWords(m, f, ws), g, i) == Rd(m, g, i)
  {
    forall i: nat | i < |ws|
      ensures Rd(FillWords(m, f, ws), f, i) == ws[i]
    {
      assert Loc(f, i) in FillWords(m, f, ws);
    }
  }

  /// Filling one word further.
  lemma FillWordsStep(m: Memory, f: nat, ws: seq<Word>, n: nat)
    requires n < |ws|
    ensures FillWords(m, f, ws[..n + 1]) == Wr(FillWords(m, f, ws[..n]), f, n, ws[n])
  {
    var a, b := FillWords(m, f, ws[..n + 1]), Wr(FillWords(m, f, ws[..n]), f, n, ws[n]);
    forall l: Loc
      ensures (l in a <==> l in b) && (l in a ==> a[l] == b[l])
    {
      if l.frame == f && l.idx <= n {
        assert l == Loc(f, l.idx) && l in a;
      }
    }
  }

  /// Frames other than f hold the same words in both memories.
  ghost predicate SameExcept(m: Memory, m': Memory, f: nat) {
    forall g: nat, i: nat :: g != f ==> Rd(m', g, i) == Rd(m, g, i)
  }
}
