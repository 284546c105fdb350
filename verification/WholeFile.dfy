/** A file of several scans from the blocks of an image to the blocks that the decompressor puts out: the
    scans of an accepted script, each over the blocks that it covers. */
module WholeFile {
  import opened SizeArithmetic
  import opened ArithModel
  import opened ArithBlocks
  import opened ArithWholeScan
  import opened ScanScript
  import opened ScriptDelivery
  import opened BlockLayout
  import opened McuBuilders
  import opened CoefInput
  import opened CoefOutput
  import opened BufferedImage

  /** What the entropy decoder makes of each block of the scan. */
  ghost predicate Decodes(decode: Decoding, sc: Scan) {
    forall b: Block, was: JBlock :: decode(b, was) == Decoded(sc, ZigZag(sc, b), was)
  }

  /** The scan holds the components of its entry of the script, and the blocks of this image. */
  ghost predicate ScanOf(coded: CodedScan, sc: Scan, s: ScanSpec, f: Frame, dct: Place -> Block) {
    && coded.s.f == f && coded.dct == dct && coded.mcus == AllMcus(coded.s, dct) && Decodes(coded.decode, sc)
    && forall c: nat :: c in coded.s.sel <==> c in s.comps
  }

  ghost predicate FileOf(coded: seq<CodedScan>, scans: seq<Scan>, script: seq<ScanSpec>, f: Frame, dct: Place -> Block) {
    && |coded| == |scans| == |script|
    && forall k :: 0 <= k < |script| ==> ScanOf(coded[k], scans[k], script[k], f, dct)
  }

  predicate RealBlock(f: Frame, p: Place) {
    p.c < |f.planes| && p.row < f.planes[p.c].height && p.col < f.planes[p.c].width
  }

  /** A scan reaches the real blocks of its components, as they are. */
  lemma RealCovered(s: BlockScan, dct: Place -> Block, p: Place)
    requires RealBlock(s.f, p)
    ensures Covered(s, p) <==> p.c in s.sel
    ensures Padded(s.f, dct, p) == dct(p)
  {
    if p.c in s.sel {
      var j :| 0 <= j < |s.sel| && s.sel[j] == p.c;
      assert s.f.Fits(PlaneAt(s, j));
      assert CoveredIn(s, j, p);
    }
  }

  /** Each real block goes through the scans in which its component takes part. */
  lemma {:induction false} BlockAfter(coded: seq<CodedScan>, scans: seq<Scan>, script: seq<ScanSpec>, f: Frame,
                                      dct: Place -> Block, image: map<Place, JBlock>, p: Place, z: ZBlock, n: nat)
    requires FileOf(coded, scans, script, f, dct) && n <= |script| && RealBlock(f, p) && p in image
    requires forall k :: 0 <= k < |scans| ==> z == ZigZag(scans[k], dct(p))
    ensures ImageAfter(coded, image, n)[p] == AfterScans(scans[..n], script[..n], p.c, z, image[p])
  {
    if n != 0 {
      BlockAfter(coded, scans, script, f, dct, image, p, z, n - 1);
      assert ScanOf(coded[n - 1], scans[n - 1], script[n - 1], f, dct);
      RealCovered(coded[n - 1].s, dct, p);
      assert script[..n][..n - 1] == script[..n - 1] && scans[..n][..n - 1] == scans[..n - 1];
    }
  }

  /** A block put out after all scans holds each coefficient as the script has sent it. */
  lemma RowHolds(coded: seq<CodedScan>, scans: seq<Scan>, script: seq<ScanSpec>, order: seq<Index>, blockSize: nat,
                 ncomps: int, precision: int, f: Frame, dct: Place -> Block, image: map<Place, JBlock>,
                 row: map<Place, JBlock>, r: nat, p: Place, z: ZBlock)
    requires Valid(script, ncomps, precision) && LimSe(blockSize) < |order|
    requires CodesAll(scans, Used(script, blockSize), IsProgressive(script), order, LimSe(blockSize))
    requires FileOf(coded, scans, Used(script, blockSize), f, dct) && |scans| > 0
    requires RowBetween(f, coded, image, row, r, |coded|, |coded|) && p in row && image[p] == ZERO_BLOCK
    requires z == ZigZag(scans[0], dct(p))
    ensures HoldsSent(order, LimSe(blockSize), z, script, p.c, row[p])
  {
    var u := Used(script, blockSize);
    assert Codes(scans[0], u[0], IsProgressive(script), order, LimSe(blockSize));
    forall k | 0 <= k < |scans|
      ensures z == ZigZag(scans[k], dct(p))
    {
      assert Codes(scans[k], u[k], IsProgressive(script), order, LimSe(blockSize));
    }
    BlockAfter(coded, scans, u, f, dct, image, p, z, |scans|);
    assert scans[..|scans|] == scans && u[..|u|] == u;
    ScriptDelivers(scans, script, order, blockSize, ncomps, precision, p.c, z);
  }

  /** Every real block of iMCU row r, as the whole script has sent it. */
  ghost predicate RowAsSent(f: Frame, script: seq<ScanSpec>, order: seq<Index>, lim: Index, dct: Place -> Block,
                            row: map<Place, JBlock>, r: nat)
    requires lim < |order|
  {
    && (forall p: Place :: p in row <==> RealIn(f, r, p))
    && forall p: Place :: p in row ==> HoldsSent(order, lim, InOrder(order, lim, dct(p)), script, p.c, row[p])
  }

  /** A block in zigzag order. */
  function InOrder(order: seq<Index>, lim: Index, block: Block): ZBlock
    requires lim < |order|
  {
    seq(64, i requires 0 <= i < 64 => if i <= lim then block[order[i]] else 0)
  }

  lemma RowsHold(coded: seq<CodedScan>, scans: seq<Scan>, script: seq<ScanSpec>, order: seq<Index>, blockSize: nat,
                 ncomps: int, precision: int, f: Frame, dct: Place -> Block, image: map<Place, JBlock>,
                 rows: seq<map<Place, JBlock>>)
    requires Valid(script, ncomps, precision) && LimSe(blockSize) < |order|
    requires CodesAll(scans, Used(script, blockSize), IsProgressive(script), order, LimSe(blockSize))
    requires FileOf(coded, scans, Used(script, blockSize), f, dct) && coded != []
    requires forall p :: p in image ==> image[p] == ZERO_BLOCK
    requires forall r :: 0 <= r < |rows| ==> RowBetween(f, coded, image, rows[r], r, |coded|, |coded|)
    ensures forall r :: 0 <= r < |rows| ==> RowAsSent(f, script, order, LimSe(blockSize), dct, rows[r], r)
  {
    assert Codes(scans[0], Used(script, blockSize)[0], IsProgressive(script), order, LimSe(blockSize));
    forall r, p | 0 <= r < |rows| && p in rows[r]
      ensures HoldsSent(order, LimSe(blockSize), InOrder(order, LimSe(blockSize), dct(p)), script, p.c, rows[r][p])
    {
      RowHolds(coded, scans, script, order, blockSize, ncomps, precision, f, dct, image, rows[r], r, p,
               ZigZag(scans[0], dct(p)));
    }
  }

  /** As many different components as there are: all of them. */
  lemma {:induction false} AllIn(sel: seq<nat>, n: nat)
    requires (forall j :: 0 <= j < |sel| ==> sel[j] < n) && forall i, j :: 0 <= i < j < |sel| ==> sel[i] != sel[j]
    requires |sel| >= n
    ensures forall c: nat :: c < n ==> c in sel
  {
    var some := set c: nat | c < n && c in sel;
    Members(sel, some);
    var all := Below(n);
    assert some <= all;
    if c: nat :| c < n && c !in sel {
      assert some <= all - {c};
      Fewer(some, all - {c});
      assert false;
    }
  }

  lemma {:induction false} Members(sel: seq<nat>, some: set<nat>)
    requires (forall i, j :: 0 <= i < j < |sel| ==> sel[i] != sel[j]) && forall c: nat :: c in some <==> c in sel
    ensures |some| == |sel|
  {
    if sel != [] {
      var n := |sel| - 1;
      assert sel == sel[..n] + [sel[n]];
      Members(sel[..n], some - {sel[n]});
    } else {
      assert some == {};
    }
  }

  function Below(n: nat): (r: set<nat>)
    ensures |r| == n && forall c: nat :: c in r <==> c < n
  {
    if n == 0 then {} else Below(n - 1) + {n - 1}
  }

  lemma {:induction false} Fewer(a: set<nat>, b: set<nat>)
    requires a <= b
    ensures |a| <= |b|
  {
    if a != {} {
      var x :| x in a;
      Fewer(a - {x}, b - {x});
    }
  }

  /** A sequential script whose first scan holds all components has no other scan. */
  lemma OnlyScan(coded: seq<CodedScan>, scans: seq<Scan>, script: seq<ScanSpec>, blockSize: nat, ncomps: int, precision: int,
                 f: Frame, dct: Place -> Block)
    requires Valid(script, ncomps, precision) && !IsProgressive(script) && ncomps == |f.planes|
    requires FileOf(coded, scans, Used(script, blockSize), f, dct) && coded != [] && |coded[0].s.sel| >= |f.planes|
    ensures |coded| == 1
  {
    var u := Used(script, blockSize);
    ValidIsGood(script, ncomps, precision);
    UsedIsReduced(script, blockSize, false, ncomps, MaxAl(precision));
    assert ScanOf(coded[0], scans[0], u[0], f, dct);
    AllIn(coded[0].s.sel, |f.planes|);
    if |coded| > 1 {
      ReducedIsSound(script, false, ncomps, precision, LimSe(blockSize), 1);
      var c := u[1].comps[0];
      assert c as nat in coded[0].s.sel;
      assert u[..1] == [u[0]];
      LastAlMore([], u[0], c, 0);
      assert [] + [u[0]] == u[..1];
      ReducedIsSound(script, false, ncomps, precision, LimSe(blockSize), 0);
      assert false;
    }
  }

  /** Main result: a file of the scans of any script that validate_script accepts, read into the arrays in
      portions of any sizes and then put out, gives for every real block of the image each coefficient, truncated to the last
      bit position that the script sends for it. */
  method DecodeFile(coded: seq<CodedScan>, ghost scans: seq<Scan>, ghost script: seq<ScanSpec>, ghost order: seq<Index>,
                    ghost blockSize: nat, ghost ncomps: int, ghost precision: int, f: Frame, ghost dct: Place -> Block,
                    progressive: bool, image: map<Place, JBlock>, arrivals: seq<nat>, more: seq<nat>)
    returns (done: bool, rows: seq<map<Place, JBlock>>)
    requires Valid(script, ncomps, precision) && LimSe(blockSize) < |order| && progressive == IsProgressive(script) && ncomps == |f.planes|
    requires CodesAll(scans, Used(script, blockSize), progressive, order, LimSe(blockSize))
    requires FileOf(coded, scans, Used(script, blockSize), f, dct) && coded != []
    requires HasArrays(f, image) && forall p :: p in image ==> image[p] == ZERO_BLOCK
    ensures AllSome(arrivals) && |arrivals| > LaterUnits(coded, 0) ==> done
    ensures done && AllSome(more) && |more| >= f.total + LaterUnits(coded, 0) ==> |rows| == f.total
    ensures |rows| <= f.total
    ensures forall r :: 0 <= r < |rows| ==> RowAsSent(f, script, order, LimSe(blockSize), dct, rows[r], r)
  {
    assert GoodScans(f, coded);
    var d := new Decompressor(coded, progressive, image);
    done := d.ReadFile(arrivals);
    rows := [];
    if done {
      var refused;
      rows, refused := d.OutputPass(more);
      if !d.hasMultipleScans {
        OnlyScan(coded, scans, script, blockSize, ncomps, precision, f, dct);
      }
      RowsHold(coded, scans, script, order, blockSize, ncomps, precision, f, dct, image, rows);
    }
  }
}
