// The mpz_t object of src/sbignum.c: storage, normal form, assignment,
// comparison and the one-bit steps the long algorithms are made of.
module MpzCore {
  import opened AtomSeq

  /** The library's return codes. Allocation always succeeds here. */
  datatype Status = Ok | Inval

  class Mpz {
    var d: array<Atom>  // storage, least significant atom first; its length is `a`
    var l: nat          // atoms in use
    var neg: bool       // the sign flag `s`

    /** mpz_init */
    constructor ()
      ensures fresh(d) && d.Length == 0 && l == 0 && !neg
    {
      d := new Atom[0];
      l, neg := 0, false;
    }

    /** The global assumption: every atom at or above the length is zero. */
    ghost predicate Valid()
      reads this, d
    {
      l <= d.Length && forall i | l <= i < d.Length :: d[i] == 0
    }

    /** The length is exact; the atoms above it are not constrained. */
    ghost predicate Exact()
      reads this, d
    {
      l <= d.Length && (l > 0 ==> d[l - 1] != 0)
    }

    /** What every public operation keeps, up to the sign of zero. */
    ghost predicate Normal()
      reads this, d
    {
      Valid() && Exact()
    }

    /** Normal, and zero is not negative. */
    ghost predicate Canonical()
      reads this, d
    {
      Normal() && (l == 0 ==> !neg)
    }

    ghost function Mag(): nat
      requires l <= d.Length
      reads this, d
    {
      Val(d[..l])
    }

    ghost function Int(): int
      requires l <= d.Length
      reads this, d
    {
      var m: int := Mag();
      if neg then -m else m
    }

    /** mpz_realloc: make d[i] usable; new atoms are zero. A longer block is a
        new array, the old one keeps its contents. */
    method Realloc(i: nat)
      modifies this`d
      ensures i < d.Length
      ensures if i < old(d).Length then d == old(d) else fresh(d) && d.Length == i + 1
      ensures forall k | 0 <= k < old(d).Length :: d[k] == old(d[k])
      ensures forall k | old(d).Length <= k < d.Length :: d[k] == 0
    {
      if i < d.Length {
        return;
      }
      var block := new Atom[i + 1];
      forall k | 0 <= k < d.Length {
        block[k] := d[k];
      }
      var j := d.Length;
      while j <= i
        invariant d == old(d) && d.Length <= j <= i + 1
        invariant forall k | 0 <= k < d.Length :: block[k] == d[k]
        invariant forall k | d.Length <= k < j :: block[k] == 0
      {
        block[j] := 0;
        j := j + 1;
      }
      d := block;
    }

    /** _mpz_normalize: the length becomes that of the most significant non-zero
        atom; the sign stays. */
    method Trim()
      modifies this`l
      ensures Normal() && Mag() == Val(d[..])
      ensures old(Normal()) ==> l == old(l)
    {
      var j := d.Length;
      while j > 0 && d[j - 1] == 0
        invariant 0 <= j <= d.Length
        invariant forall k | j <= k < d.Length :: d[k] == 0
      {
        j := j - 1;
      }
      l := j;
      assert d[..l] == d[..][..l];
      ValPadded(d[..], l);
    }

    /** mpz_normalize: as Trim, and a zero loses its sign. */
    method Normalize()
      requires d.Length == 0 ==> l == 0
      modifies this`l, this`neg
      ensures Normal() && Mag() == Val(d[..])
      ensures neg == (old(neg) && (l > 0 || d.Length == 0))
    {
      if d.Length == 0 {
        assert d[..] == [];
        return;
      }
      Trim();
      if l == 0 {
        neg := false;
      }
    }

    /** mpz_zero: clear the atoms in use; the sign stays. */
    method Zero()
      requires Valid()
      modifies this`l, d
      ensures l == 0 && forall k | 0 <= k < d.Length :: d[k] == 0
    {
      if l == 0 {
        return;
      }
      forall k | 0 <= k < l {
        d[k] := 0;
      }
      l := 0;
    }

    /** mpz_zero_realloc: zero, with d[i] usable; the sign stays. */
    method ZeroRealloc(i: nat)
      requires Valid()
      modifies this`d, this`l, d
      ensures Valid() && l == 0 && i < d.Length
      ensures if i < old(d).Length then d == old(d) else fresh(d) && d.Length == i + 1
      ensures forall k | 0 <= k < d.Length :: d[k] == 0
    {
      Realloc(i);
      Zero();
    }

    /** mpz_setzero */
    method SetZero()
      requires Valid()
      modifies this, d
      ensures Canonical() && Mag() == 0 && l == 0
      ensures d == old(d) || fresh(d)
    {
      neg := false;
      ZeroRealloc(0);
    }

    /** mpz_set: copy src. A number assigned to itself becomes zero, because it
        is cleared before it is read; its sign then stays as it was. */
    method Set(src: Mpz)
      requires Valid() && src.l <= src.d.Length
      requires src != this ==> src.d != d
      modifies this, d
      ensures Valid() && neg == old(src.neg) && l < d.Length
      ensures d == old(d) || fresh(d)
      ensures l == (if src == this then 0 else old(src.l))
      ensures src != this ==> d[..l] == old(src.d[..src.l])
    {
      ZeroRealloc(src.l);
      forall k | 0 <= k < src.l {
        d[k] := src.d[k];
      }
      l := src.l;
      neg := src.neg;
    }

    /** mpz_set_ui, through u32tompz. */
    method SetUi(u: Atom)
      requires Valid()
      modifies this, d
      ensures Canonical() && !neg && Mag() == u && l < d.Length && l <= 1
      ensures d == old(d) || fresh(d)
    {
      var t := FromAtom(u);
      Set(t);
    }
  }

  /** u32tompz and u32pack: a one-atom number on the stack. */
  method FromAtom(u: Atom) returns (t: Mpz)
    ensures fresh(t) && fresh(t.d)
    ensures t.Canonical() && !t.neg && t.Mag() == u && t.l <= 1
  {
    t := new Mpz();
    t.d := new Atom[1] [u];
    t.l := if u != 0 then 1 else 0;
    assert Val(t.d[..t.l]) == u by {
      if u != 0 {
        assert t.d[..1] == [u];
        assert Val([u]) == u + BASE * Val([u][1..]);
      }
    }
  }

  /** The _mpz_copy_stack family: a number with its own copy of the storage. */
  method Clone(z: Mpz) returns (t: Mpz)
    requires z.l <= z.d.Length
    ensures fresh(t) && fresh(t.d) && t.d[..] == z.d[..] && t.l == z.l && t.neg == z.neg
    ensures t.Mag() == z.Mag() && t.Int() == z.Int()
    ensures z.Valid() ==> t.Valid()
    ensures z.Exact() ==> t.Exact()
  {
    t := new Mpz();
    var block := new Atom[z.d.Length];
    forall k | 0 <= k < z.d.Length {
      block[k] := z.d[k];
    }
    t.d, t.l, t.neg := block, z.l, z.neg;
    assert t.d[..t.l] == z.d[..z.l];
    assert z.Valid() ==> t.Valid();
  }

  /** mpz_cmpabsi_raw and mpz_cmpabs: compare magnitudes from the top atom down. */
  method CmpAbs(a: array<Atom>, al: nat, b: array<Atom>, bl: nat) returns (c: int)
    requires al <= a.Length && Trimmed(a[..al])
    requires bl <= b.Length && Trimmed(b[..bl])
    ensures c > 0 <==> Val(a[..al]) > Val(b[..bl])
    ensures c < 0 <==> Val(a[..al]) < Val(b[..bl])
  {
    if al > bl {
      ShorterIsSmaller(b[..bl], a[..al]);
      return 1;
    }
    if al < bl {
      ShorterIsSmaller(a[..al], b[..bl]);
      return -1;
    }
    var i := al;
    while i > 0
      invariant 0 <= i <= al
      invariant a[..al][i..] == b[..bl][i..]
    {
      i := i - 1;
      if a[i] > b[i] {
        assert a[..al][i + 1..] == b[..bl][i + 1..];
        TopAtomDecides(b[..bl], a[..al], i);
        return 1;
      }
      if a[i] < b[i] {
        TopAtomDecides(a[..al], b[..bl], i);
        return -1;
      }
    }
    assert a[..al][0..] == a[..al] && b[..bl][0..] == b[..bl];
    return 0;
  }
}
