/** The derived Huffman tables: jpeg_make_c_derived_tbl of jchuff.c and jpeg_make_d_derived_tbl of
    jdhuff.c, with their validation of the table. */
module HuffmanDerived {
  import opened ArithTable
  import opened PointTransform
  import opened HuffmanCodes

  datatype Option<T> = None | Some(value: T)

  lemma {:induction false} FirstMonotone(b: Lengths, l: nat, m: nat)
    requires l <= m <= 17
    ensures First(b, l) <= First(b, m)
    decreases m
  {
    if l < m {
      FirstMonotone(b, l, m - 1);
    }
  }

  /** Figure C.1: the table of code lengths, ended by a 0; fails on more than 256 codes. */
  method MakeSizes(b: Lengths) returns (ok: bool, sizes: seq<nat>, lastp: nat)
    ensures ok <==> Total(b) <= 256
    ensures ok ==> lastp == Total(b) && |sizes| == 257 && sizes[lastp] == 0
    ensures ok ==> forall p :: 0 <= p < Total(b) ==> sizes[p] == Size(b, p)
  {
    var huffsize := new nat[257];
    var p: nat := 0;
    ok, sizes, lastp := true, [], 0;
    for l := 1 to 17
      invariant p == First(b, l) <= 256 && p <= Total(b)
      invariant forall q :: 0 <= q < p ==> huffsize[q] == Size(b, q)
    {
      var i: nat := b[l];
      FirstMonotone(b, l + 1, 17);
      if p + i > 256 {
        return false, [], 0;
      }
      while i != 0
        invariant p + i == First(b, l) + b[l] <= Total(b) && i <= b[l]
        invariant forall q :: 0 <= q < p ==> huffsize[q] == Size(b, q)
      {
        i := i - 1;
        huffsize[p] := l;
        SizeIs(b, p, l);
        p := p + 1;
      }
    }
    huffsize[p] := 0;
    lastp := p;
    sizes := huffsize[..];
  }

  /** While there are no codes, the first code stays 0. */
  lemma {:induction false} NoCodesYet(b: Lengths, l: nat)
    requires 1 <= l <= 17 && First(b, l) == 0
    ensures MinCode(b, l) == 0
  {
    if l > 1 {
      NoCodesYet(b, l - 1);
    }
  }

  /** Lengths behind the last code are legal. */
  lemma {:induction false} NoCodesLeft(b: Lengths, m: nat, l: nat)
    requires 1 < m <= l <= 17 && First(b, m) == Total(b) && LegalUpTo(b, m)
    ensures LegalUpTo(b, l)
    decreases l
  {
    if m < l {
      NoCodesLeft(b, m, l - 1);
      FirstMonotone(b, m, l - 1);
      FirstMonotone(b, l, 17);
    }
  }

  lemma {:induction false} BeforeFirst(b: Lengths, m: nat)
    requires 1 <= m <= 17 && First(b, m) == 0
    ensures LegalUpTo(b, m)
  {
    if m > 1 {
      BeforeFirst(b, m - 1);
      NoCodesYet(b, m - 1);
    }
  }

  /** The inner loop of figure C.2: the codes of length si. */
  method MakeCodesOfLength(b: Lengths, huffsize: seq<nat>, huffcode: array<nat>, si: nat, p0: nat, code0: nat)
    returns (p: nat, code: nat)
    requires Total(b) <= 256 && |huffsize| == huffcode.Length == 257 && huffsize[Total(b)] == 0
    requires forall q :: 0 <= q < Total(b) ==> huffsize[q] == Size(b, q)
    requires 1 <= si <= 16 && p0 == First(b, si) && First(b, si) + b[si] <= Total(b) && code0 == MinCode(b, si)
    requires forall q :: 0 <= q < p0 ==> huffcode[q] == Code(b, q)
    modifies huffcode
    ensures p == First(b, si) + b[si] && code == MinCode(b, si) + b[si]
    ensures forall q :: 0 <= q < p ==> huffcode[q] == Code(b, q)
  {
    p, code := p0, code0;
    while huffsize[p] == si
      invariant p0 <= p <= First(b, si) + b[si] && code == MinCode(b, si) + p - p0
      invariant forall q :: 0 <= q < p ==> huffcode[q] == Code(b, q)
      decreases Total(b) - p
    {
      SizeIs(b, p, si);
      huffcode[p] := code;
      p := p + 1;
      code := code + 1;
    }
    if p < First(b, si) + b[si] {
      SizeIs(b, p, si);
    }
  }

  /** Figure C.2: the codes; fails if a code would be all ones or too long for its length. */
  method MakeCodes(b: Lengths, huffsize: seq<nat>) returns (ok: bool, codes: seq<nat>)
    requires Total(b) <= 256 && |huffsize| == 257 && huffsize[Total(b)] == 0
    requires forall p :: 0 <= p < Total(b) ==> huffsize[p] == Size(b, p)
    ensures ok <==> Legal(b)
    ensures ok ==> |codes| == 257 && forall p :: 0 <= p < Total(b) ==> codes[p] == Code(b, p)
  {
    var huffcode := new nat[257];
    var code: nat, si: nat, p: nat := 0, huffsize[0], 0;
    ok, codes := true, [];
    if Total(b) != 0 {
      assert First(b, si) == 0;
      NoCodesYet(b, si);
      BeforeFirst(b, si);
    } else {
      BeforeFirst(b, 17);
    }
    while huffsize[p] != 0
      invariant p <= Total(b)
      invariant Total(b) != 0 ==> 1 <= si <= 17 && p == First(b, si) && code == MinCode(b, si) && LegalUpTo(b, si)
      invariant forall q :: 0 <= q < p ==> huffcode[q] == Code(b, q)
      decreases 17 - si
    {
      FirstMonotone(b, si + 1, 17);
      p, code := MakeCodesOfLength(b, huffsize, huffcode, si, p, code);
      if code >= Pow2(si) {
        if Legal(b) {
          LegalAt(b, 17, si);
        }
        return false, [];
      }
      code := 2 * code;
      si := si + 1;
    }
    if Total(b) != 0 {
      NoCodesLeft(b, si, 17);
    }
    codes := huffcode[..];
  }

  // ------------------------------------------------------------------ encoding tables

  /** c_derived_tbl: code and length for each symbol; length 0 if there is no code. */
  datatype CTableInfo = CTable(ehufco: seq<nat>, ehufsi: seq<nat>)

  type CTable = c: CTableInfo | |c.ehufco| == |c.ehufsi| == 256 witness CTable(seq(256, _ => 0), seq(256, _ => 0))

  function MaxSymbol(isDC: bool): Byte {
    if isDC then 15 else 255
  }

  /** The symbols before index n are in range, and none is listed twice. */
  ghost predicate GoodSymbols(t: HuffTbl, n: nat, isDC: bool)
    requires n <= 256
  {
    && (forall p :: 0 <= p < n ==> t.vals[p] <= MaxSymbol(isDC))
    && forall p, q :: 0 <= p < q < n ==> t.vals[p] != t.vals[q]
  }

  /** The table gives exactly the symbols before index n their codes. */
  ghost predicate Encodes(c: CTable, t: HuffTbl, n: nat)
    requires n <= 256 && n <= Total(t.bits)
  {
    && (forall p :: 0 <= p < n ==> c.ehufco[t.vals[p]] == Code(t.bits, p) && c.ehufsi[t.vals[p]] == Size(t.bits, p))
    && forall i :: 0 <= i < 256 && c.ehufsi[i] != 0 ==> i in t.vals[..n]
  }

  lemma EncodesMore(c: CTable, t: HuffTbl, p: nat, isDC: bool)
    requires p < Total(t.bits) <= 256 && GoodSymbols(t, p, isDC) && Encodes(c, t, p)
    ensures var i := t.vals[p];
            if i > MaxSymbol(isDC) || c.ehufsi[i] != 0 then !GoodSymbols(t, p + 1, isDC)
            else GoodSymbols(t, p + 1, isDC)
                 && Encodes(CTable(c.ehufco[i := Code(t.bits, p)], c.ehufsi[i := Size(t.bits, p)]), t, p + 1)
  {
    assert t.vals[..p + 1] == t.vals[..p] + [t.vals[p]];
    forall q | 0 <= q < p
      ensures c.ehufsi[t.vals[q]] != 0
    {
      assert c.ehufsi[t.vals[q]] == Size(t.bits, q);
    }
  }

  /** jpeg_make_c_derived_tbl: accepts exactly the legal tables without repeated symbols. */
  method MakeCDerivedTbl(t: HuffTbl, isDC: bool) returns (r: Option<CTable>)
    ensures r.Some? <==> Legal(t.bits) && GoodSymbols(t, Total(t.bits), isDC)
    ensures r.Some? ==> Encodes(r.value, t, Total(t.bits))
  {
    var ok, huffsize, lastp := MakeSizes(t.bits);
    if !ok {
      return None;
    }
    var huffcode;
    ok, huffcode := MakeCodes(t.bits, huffsize);
    if !ok {
      return None;
    }
    r := FillCTable(t, isDC, huffsize, huffcode, lastp);
  }

  /** Figure C.3. */
  method FillCTable(t: HuffTbl, isDC: bool, huffsize: seq<nat>, huffcode: seq<nat>, lastp: nat) returns (r: Option<CTable>)
    requires lastp == Total(t.bits) <= 256 && |huffsize| == |huffcode| == 257
    requires forall p :: 0 <= p < lastp ==> huffsize[p] == Size(t.bits, p) && huffcode[p] == Code(t.bits, p)
    ensures r.Some? <==> GoodSymbols(t, lastp, isDC)
    ensures r.Some? ==> Encodes(r.value, t, lastp)
  {
    var co, si := new nat[256], new nat[256](_ => 0);
    for p := 0 to lastp
      invariant GoodSymbols(t, p, isDC) && Encodes(CTable(co[..], si[..]), t, p)
    {
      var i := t.vals[p];
      EncodesMore(CTable(co[..], si[..]), t, p, isDC);
      if i > MaxSymbol(isDC) || si[i] != 0 {
        return None;
      }
      ghost var c := CTable(co[..], si[..]);
      co[i] := huffcode[p];
      si[i] := huffsize[p];
      assert CTable(co[..], si[..]) == CTable(c.ehufco[i := Code(t.bits, p)], c.ehufsi[i := Size(t.bits, p)]);
    }
    r := Some(CTable(co[..], si[..]));
  }

  // ------------------------------------------------------------------ decoding tables

  /** d_derived_tbl: greatest code and symbol offset for each length, and for each byte the length
      and the symbol of the code that it begins with (length 0 if that is too long). */
  datatype DTableInfo = DTable(maxcode: seq<int>, valoffset: seq<int>, lookNbits: seq<nat>, lookSym: seq<Byte>,
                               pub: HuffTbl)

  type DTable = d: DTableInfo | |d.maxcode| == |d.valoffset| == 18 && |d.lookNbits| == |d.lookSym| == 256
    witness DTable(seq(18, _ => 0), seq(18, _ => 0), seq(256, _ => 0), seq(256, _ => 0),
                   TableInfo(seq(17, _ => 0), seq(256, _ => 0)))

  /** The entry for length l is right. */
  predicate LengthOk(b: Lengths, maxcode: int, valoffset: int, l: nat)
    requires 1 <= l <= 16
  {
    if b[l] == 0 then maxcode == -1
    else maxcode == MinCode(b, l) + b[l] - 1 && valoffset == First(b, l) - MinCode(b, l)
  }

  /** The lookahead entry for the bits x is right: a code of up to w bits, or none. */
  predicate LookOk(t: HuffTbl, x: nat, w: nat, nb: nat, sym: Byte) {
    var f := Decode(t.bits, BitsOf(x, w));
    if f.Index? && f.n <= w && f.p < 256 then nb == f.n && sym == t.vals[f.p] else nb == 0
  }

  ghost predicate Decodes(d: DTable, t: HuffTbl) {
    d.pub == t && LengthsOk(d, t) && LooksOk(d, t)
  }

  ghost predicate LengthsOk(d: DTable, t: HuffTbl) {
    && (forall l :: 1 <= l <= 16 ==> LengthOk(t.bits, d.maxcode[l], d.valoffset[l], l))
    && d.maxcode[17] == 0xFFFFF
  }

  ghost predicate LooksOk(d: DTable, t: HuffTbl) {
    forall x :: 0 <= x < 256 ==> LookOk(t, x, HUFF_LOOKAHEAD, d.lookNbits[x], d.lookSym[x])
  }

  /** Code number i of those of length l. */
  lemma CodeAt(b: Lengths, l: nat, i: nat, p: nat)
    requires 1 <= l <= 16 && i < b[l] && p == First(b, l) + i
    ensures p < Total(b) && Code(b, p) == MinCode(b, l) + i
  {
    assert HasLength(b, p, l);
    SizeIs(b, p, l);
  }

  /** Figure F.15. */
  method MakeLengths(b: Lengths, huffcode: seq<nat>) returns (maxcode: seq<int>, valoffset: seq<int>)
    requires Total(b) <= 256 && |huffcode| == 257
    requires forall p :: 0 <= p < Total(b) ==> huffcode[p] == Code(b, p)
    ensures |maxcode| == |valoffset| == 18 && maxcode[17] == 0xFFFFF
    ensures forall l :: 1 <= l <= 16 ==> LengthOk(b, maxcode[l], valoffset[l], l)
  {
    var mc, vo := new int[18](_ => 0), new int[18](_ => 0);
    var p: nat := 0;
    for l := 1 to 17
      invariant p == First(b, l)
      invariant forall k :: 1 <= k < l ==> LengthOk(b, mc[k], vo[k], k)
    {
      if b[l] != 0 {
        CodeAt(b, l, 0, p);
        CodeAt(b, l, b[l] - 1, p + b[l] - 1);
        vo[l] := p - huffcode[p];
        p := p + b[l];
        mc[l] := huffcode[p - 1];
      } else {
        mc[l] := -1;
      }
    }
    mc[17] := 0xFFFFF;
    maxcode, valoffset := mc[..], vo[..];
  }

  /** The entries below x are right, and the others have not been written. */
  ghost predicate Filled(t: HuffTbl, w: nat, nb: seq<nat>, sym: seq<Byte>, x: int)
    requires |nb| == |sym|
  {
    && 0 <= x <= |nb|
    && (forall y :: 0 <= y < x ==> LookOk(t, y, w, nb[y], sym[y]))
    && forall y :: x <= y < |nb| ==> nb[y] == 0
  }

  /** The entries of code p. */
  method FillCode(t: HuffTbl, w: nat, nb: array<nat>, sym: array<Byte>, p: nat, l: nat, code: nat)
    requires Legal(t.bits) && nb.Length == sym.Length == Pow2(w)
    requires p < Total(t.bits) && l == Size(t.bits, p) <= w && code == Code(t.bits, p)
    requires Filled(t, w, nb[..], sym[..], Shift(code, w - l))
    modifies nb, sym
    ensures Filled(t, w, nb[..], sym[..], Shift(code + 1, w - l))
  {
    var lookbits := Shift(code, w - l);
    ghost var end := Shift(code + 1, w - l);
    ShiftAdd(code, 1, w - l);
    ShiftFacts(code, w - l);
    CodeFits(t.bits, p);
    for ctr := Pow2(w - l) downto 0
      invariant lookbits + ctr == end
      invariant Filled(t, w, nb[..], sym[..], lookbits)
    {
      LookEntry(t.bits, p, lookbits, w);
      nb[lookbits] := l;
      sym[lookbits] := t.vals[p];
      lookbits := lookbits + 1;
    }
  }

  /** The entries of the codes of length l. */
  method FillLength(t: HuffTbl, w: nat, nb: array<nat>, sym: array<Byte>, huffcode: seq<nat>, l: nat, p0: nat) returns (p: nat)
    requires Legal(t.bits) && nb.Length == sym.Length == Pow2(w) && |huffcode| == 257
    requires forall q :: 0 <= q < Total(t.bits) ==> huffcode[q] == Code(t.bits, q)
    requires 1 <= l <= w <= 16 && p0 == First(t.bits, l)
    requires Filled(t, w, nb[..], sym[..], Shift(MinCode(t.bits, l), w - l))
    modifies nb, sym
    ensures p == First(t.bits, l) + t.bits[l]
    ensures Filled(t, w, nb[..], sym[..], Shift(MinCode(t.bits, l) + t.bits[l], w - l))
  {
    p := p0;
    FirstMonotone(t.bits, l + 1, 17);
    for i := 0 to t.bits[l]
      invariant p == p0 + i
      invariant Filled(t, w, nb[..], sym[..], Shift(MinCode(t.bits, l) + i, w - l))
    {
      SizeIs(t.bits, p, l);
      FillCode(t, w, nb, sym, p, l, huffcode[p]);
      p := p + 1;
    }
  }

  /** The lookahead tables. */
  method MakeLookahead(t: HuffTbl, w: nat, huffcode: seq<nat>) returns (nbits: seq<nat>, syms: seq<Byte>)
    requires Legal(t.bits) && 1 <= w <= 16 && |huffcode| == 257
    requires forall q :: 0 <= q < Total(t.bits) ==> huffcode[q] == Code(t.bits, q)
    ensures |nbits| == |syms| == Pow2(w)
    ensures forall x :: 0 <= x < |nbits| ==> LookOk(t, x, w, nbits[x], syms[x])
  {
    var nb, sym := new nat[Pow2(w)](_ => 0), new Byte[Pow2(w)](_ => 0);
    var p: nat := 0;
    ShiftFacts(0, w - 1);
    var l: nat := 1;
    while l <= w
      invariant 1 <= l <= w + 1 && p == First(t.bits, l)
      invariant Filled(t, w, nb[..], sym[..], if l <= w then Shift(MinCode(t.bits, l), w - l)
                                              else MinCode(t.bits, w) + t.bits[w])
    {
      p := FillLength(t, w, nb, sym, huffcode, l, p);
      l := l + 1;
    }
    nbits, syms := nb[..], sym[..];
    forall x | 0 <= x < |nbits|
      ensures LookOk(t, x, w, nbits[x], syms[x])
    {
      if x >= MinCode(t.bits, w) + t.bits[w] {
        LookNone(t.bits, x, w);
      }
    }
  }

  lemma PowOf(w: nat)
    requires w == 8
    ensures Pow2(w) == 256
  {
    assert Pow2(8) == 2 * Pow2(7) == 8 * Pow2(5) == 32 * Pow2(3) == 256;
  }

  /** jpeg_make_d_derived_tbl: accepts exactly the legal tables, for DC with symbols up to 15. */
  method MakeDDerivedTbl(t: HuffTbl, isDC: bool) returns (r: Option<DTable>)
    ensures r.Some? <==> Legal(t.bits) && (isDC ==> forall p :: 0 <= p < Total(t.bits) ==> t.vals[p] <= 15)
    ensures r.Some? ==> Decodes(r.value, t)
  {
    var ok, huffsize, numsymbols := MakeSizes(t.bits);
    if !ok {
      return None;
    }
    var huffcode;
    ok, huffcode := MakeCodes(t.bits, huffsize);
    if !ok {
      return None;
    }
    var maxcode, valoffset := MakeLengths(t.bits, huffcode);
    var nbits, syms := MakeLookahead(t, HUFF_LOOKAHEAD, huffcode);
    if isDC {
      for i := 0 to numsymbols
        invariant forall p :: 0 <= p < i ==> t.vals[p] <= 15
      {
        if t.vals[i] > 15 {
          return None;
        }
      }
    }
    PowOf(HUFF_LOOKAHEAD);
    var d: DTable := DTable(maxcode, valoffset, nbits, syms, t);
    r := Some(d);
  }
}
