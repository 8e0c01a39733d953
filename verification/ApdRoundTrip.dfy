// Describing a packet and building the description gives the packet back.
module ApdRoundTrip {
  import opened Arith
  import opened Checksum
  import opened Ars
  import opened ArsCompile
  import opened Numeral
  import opened Options
  import opened ApdNumber
  import opened ApdField
  import opened ApdCopy
  import opened Apd

  // --- tokens of a description -----------------------------------------------------------------

  predicate Plain(w: string) {
    forall i | 0 <= i < |w| :: !Special(w[i])
  }

  predicate StopsHere(rest: string) {
    |rest| > 0 ==> Special(rest[0])
  }

  /** The rest of the description after a step. */
  function GoesOn(o: Order, r: Result<Machine>, rest: string): Result<seq<Layer>> {
    if r.Err? then Err(r.error) else Built(o, r.value, rest)
  }

  /** A plain word before a special character is one token, if it is not too long. */
  lemma WordIsToken(o: Order, m: Machine, w: string, rest: string)
    requires 0 < |w| <= MAX_TOKEN && Plain(w) && StopsHere(rest)
    ensures Built(o, m, w + rest) == GoesOn(o, Step(o, m, w), rest)
  {
    hide Step;
    var t := w + rest;
    RunLength(t, |w|, MAX_TOKEN);
    assert t[..|w|] == w && t[|w|..] == rest;
  }

  /** A longer word is cut. */
  lemma LongWordIsCut(o: Order, m: Machine, w: string, rest: string)
    requires |w| > MAX_TOKEN && Plain(w)
    ensures Built(o, m, w + rest) == GoesOn(o, Step(o, m, w[..MAX_TOKEN]), w[MAX_TOKEN..] + rest)
  {
    hide Step;
    var t := w + rest;
    RunLength(t, MAX_TOKEN, MAX_TOKEN);
    assert t[..MAX_TOKEN] == w[..MAX_TOKEN] && t[MAX_TOKEN..] == w[MAX_TOKEN..] + rest;
  }

  lemma SpecialIsToken(o: Order, m: Machine, c: char, rest: string)
    requires Special(c)
    ensures Built(o, m, [c] + rest) == GoesOn(o, Step(o, m, [c]), rest)
  {
    hide Step;
    var t := [c] + rest;
    assert t[..1] == [c] && t[1..] == rest;
  }

  // --- printed values are plain words ----------------------------------------------------------------

  lemma {:induction false} DecLength(n: nat, k: nat)
    requires n < Pow(10, k) && k > 0
    ensures |Dec(n)| <= k
  {
    assert Pow(10, k) == 10 * Pow(10, k - 1);
    if n >= 10 {
      DecLength(n / 10, k - 1);
    }
  }

  lemma DecIsPlain(n: nat)
    requires n <= 0xFFFF_FFFF
    ensures Plain(Dec(n)) && 0 < |Dec(n)| <= 10
  {
    NumeralRoundTrip(n, 10);
    forall i | 0 <= i < |Dec(n)|
      ensures !Special(Dec(n)[i])
    {
      assert 0 <= CharValue(Dec(n)[i]) < 10;
    }
    assert Pow(10, 10) == 10000000000 by {
      assert Pow(10, 2) == 100 && Pow(10, 4) == 100 * Pow(10, 2);
      assert Pow(10, 6) == 100 * Pow(10, 4) && Pow(10, 8) == 100 * Pow(10, 6) && Pow(10, 10) == 100 * Pow(10, 8);
    }
    DecLength(n, 10);
  }

  lemma {:induction false} HexIsPlain(n: nat, k: nat)
    ensures Plain(Hex(n, k))
  {
    if k > 0 {
      HexIsPlain(n / 16, k - 1);
      CharValueOfDigit(n % 16);
    }
  }

  lemma {:induction false} HexTextIsPlain(d: seq<Byte>)
    ensures Plain(HexText(d)) && |HexText(d)| == 2 * |d|
  {
    if |d| > 0 {
      HexTextIsPlain(d[..|d| - 1]);
      HexIsPlain(d[|d| - 1], 2);
    }
  }

  lemma {:induction false} LettersArePlain(b: Byte, i: nat)
    requires i <= 8
    ensures Plain(FlagLetters(b, i)) && |FlagLetters(b, i)| <= 8 - i
    decreases 8 - i
  {
    hide Bit;
    if i < 8 {
      LettersArePlain(b, i + 1);
    }
  }

  lemma {:induction false} NoLetters(i: nat)
    requires i <= 8
    ensures FlagLetters(0, i) == ""
    decreases 8 - i
  {
    if i < 8 {
      assert Bit(0, i) == 0;
      NoLetters(i + 1);
    }
  }

  lemma NoFlags()
    ensures FlagByte("") == 0 && FlagByte(",") == 0
  {
  }

  lemma FlagsNeedLetters(b: Byte)
    ensures |FlagLetters(b, 0)| > 0 <==> b != 0
  {
    FlagsRead(b);
    if b == 0 {
      NoLetters(0);
    }
    hide FlagLetters, LetterBit;
    if |FlagLetters(b, 0)| == 0 {
      NoFlags();
    }
  }

  lemma QuadIsPlain(a: seq<Byte>)
    requires |a| == 4
    ensures Plain(QuadText(a)) && 0 < |QuadText(a)| <= 43
  {
    DecIsPlain(a[0]);
    DecIsPlain(a[1]);
    DecIsPlain(a[2]);
    DecIsPlain(a[3]);
    hide Dec;
  }

  lemma PrefixedHexIsPlain(n: nat, k: nat)
    ensures Plain("0x" + Hex(n, k))
  {
    HexIsPlain(n, k);
    hide Hex;
  }

  /** A printed value can be read as one token. */
  predicate IsToken(w: string) {
    0 < |w| <= MAX_TOKEN && Plain(w)
  }

  lemma NumbersAreWords(f: Field, h: seq<Byte>)
    requires |h| >= HomeSize(f) > 0 && f != TcpFlags && f != SAddr && f != DAddr
    ensures IsToken(Value(f, h))
  {
    hide Dec, Hex, Plain, Get16, Bit, Name, Printed;
    if HomeSize(f) == 20 {
      PrefixedHexIsPlain(Low4(h[0]), 1);
      PrefixedHexIsPlain(High4(h[0]), 1);
      PrefixedHexIsPlain(h[1], 2);
      DecIsPlain(Get16(h, 2));
      DecIsPlain(Get16(h, 4));
      DecIsPlain(Get16(h, 6) % 0x2000 * 8);
      DecIsPlain(Bit(h[6], 5));
      DecIsPlain(Bit(h[6], 6));
      DecIsPlain(Bit(h[6], 7));
      DecIsPlain(h[8]);
      DecIsPlain(h[9]);
      PrefixedHexIsPlain(Get16(h, 10), 4);
      DecIsPlain(Get32(h, 4));
      DecIsPlain(Get32(h, 8));
      PrefixedHexIsPlain(Low4(h[12]), 1);
      DecIsPlain(High4(h[12]));
      DecIsPlain(Get16(h, 14));
      PrefixedHexIsPlain(Get16(h, 16), 4);
      DecIsPlain(Get16(h, 18));
    } else {
      DecIsPlain(Get16(h, 0));
      DecIsPlain(Get16(h, 2));
      DecIsPlain(Get16(h, 4));
      PrefixedHexIsPlain(Get16(h, 6), 4);
    }
  }

  /** What a description can carry: some TCP flag, and data that fits a token. */
  predicate IsReadable(l: Layer) {
    && (l.kind == Tcp ==> |l.data| == 20 && l.data[13] != 0)
    && (l.kind == Data ==> 1 <= |l.data| <= 5999)
  }

  lemma FieldHome(k: Kind, f: Field)
    requires f in Printed(k)
    ensures HomeSize(f) <= HeaderSize(k) && (k == Data <==> f == HexData) && (f == TcpFlags ==> k == Tcp)
    ensures f == HexData || HomeSize(f) > 0
  {
  }

  /** The printed value of a field is a word, except for no flags, no data and too much
      data. */
  lemma ValuesAreWords(l: Layer, f: Field)
    requires IsDescribed(l) && f in Printed(l.kind)
    requires f == TcpFlags || f == HexData ==> IsReadable(l)
    ensures HomeSize(f) <= |l.data| && IsToken(Value(f, l.data))
  {
    hide Name;
    FieldHome(l.kind, f);
    if f == TcpFlags {
      LettersArePlain(l.data[13], 0);
      FlagsNeedLetters(l.data[13]);
    } else if f == SAddr {
      QuadIsPlain(l.data[12..16]);
    } else if f == DAddr {
      QuadIsPlain(l.data[16..20]);
    } else if f == HexData {
      HexTextIsPlain(l.data);
    } else {
      NumbersAreWords(f, l.data);
    }
  }

  lemma NamesAreWords(f: Field)
    ensures IsToken(Name(f)) && Name(f) != ")"
  {
  }

  // --- one field --------------------------------------------------------------------------------------

  /** The machine before a field of layer l, the last of ls + [l]. */
  function AtField(ls: seq<Layer>, l: Layer): Machine {
    Machine(FieldOrCbrace, ls + [l], "")
  }

  function AfterField(ls: seq<Layer>, l: Layer): Machine {
    Machine(CommaOrCbrace, ls + [l], "")
  }

  /** `name=` leaves the machine waiting for the value. */
  lemma NameBuilt(o: Order, ls: seq<Layer>, l: Layer, name: string, rest: string)
    requires IsToken(name) && name != ")"
    ensures Built(o, AtField(ls, l), name + "=" + rest) == Built(o, Machine(GetValue, ls + [l], name), rest)
  {
    hide Built, SetLayer, SameWord;
    assert name + "=" + rest == name + ("=" + rest);
    WordIsToken(o, AtField(ls, l), name, "=" + rest);
    SpecialIsToken(o, Machine(GetEqual, ls + [l], name), '=', rest);
  }

  /** A value that is one token goes to the setter. */
  lemma ValueBuilt(o: Order, ls: seq<Layer>, l: Layer, l': Layer, name: string, v: string, rest: string)
    requires IsToken(v) && StopsHere(rest) && |l.data| >= HeaderSize(l.kind) && SetLayer(o, l, name, v) == Ok(l')
    ensures Built(o, Machine(GetValue, ls + [l], name), v + rest) == Built(o, AfterField(ls, l'), rest)
  {
    hide Built, SetLayer, SameWord;
    var m := Machine(GetValue, ls + [l], name);
    WordIsToken(o, m, v, rest);
    assert Last(m.layers) == l;
    assert WithLast(m.layers, l') == ls + [l'];
  }

  /** The layer being built: some fields of d are done. */
  ghost predicate InProgress(l: Layer, d: seq<Byte>, i: nat) {
    && (l.kind == Ip || l.kind == Udp || l.kind == Tcp) && |l.data| == |d| == HeaderSize(l.kind)
    && FieldsDone(l.kind, l.data, l.flags, d, i)
  }

  /** The text of field i, whatever comes after it. */
  lemma FieldBuilt(o: Order, ls: seq<Layer>, l: Layer, src: Layer, i: nat, rest: string) returns (l': Layer)
    requires IsDescribed(src) && src.kind == l.kind && InProgress(l, src.data, i) && i < |Printed(l.kind)|
    requires Printed(l.kind)[i] == TcpFlags ==> IsReadable(src)
    requires StopsHere(rest)
    ensures l'.kind == l.kind && InProgress(l', src.data, i + 1)
    ensures var f := Printed(l.kind)[i];
            HomeSize(f) <= |src.data| &&
            Built(o, AtField(ls, l), Name(f) + "=" + Value(f, src.data) + rest) == Built(o, AfterField(ls, l'), rest)
  {
    hide Built, Written, Value, FieldsDone, Name, FieldOf, IsReadable, IsToken, SameWord;
    var f := Printed(l.kind)[i];
    FieldHome(l.kind, f);
    ValuesAreWords(src, f);
    NamesAreWords(f);
    NamesAreKnown(l.kind, f);
    var h := FieldStep(o, l.kind, l.data, l.flags, src.data, i);
    l' := Layer(l.kind, h, l.flags + TakenBy(f));
    hide TakenBy, Printed;
    var v := Value(f, src.data);
    assert Name(f) + "=" + v + rest == Name(f) + "=" + (v + rest);
    NameBuilt(o, ls, l, Name(f), v + rest);
    ValueBuilt(o, ls, l, l', Name(f), v, rest);
  }

  lemma DescribedSize(l: Layer)
    requires IsDescribed(l)
    ensures |l.data| >= HeaderSize(l.kind) && |Printed(l.kind)| > 0
  {
  }

  lemma FieldsTextStep(l: Layer, i: nat)
    requires IsDescribed(l) && i < |Printed(l.kind)| && HomeSize(Printed(l.kind)[i]) <= |l.data|
    ensures var f := Printed(l.kind)[i];
            FieldsText(l, i) ==
            Name(f) + "=" + Value(f, l.data) + if i + 1 < |Printed(l.kind)| then "," + FieldsText(l, i + 1) else ""
  {
    hide Name, Value;
  }

  lemma CommaBuilt(o: Order, ls: seq<Layer>, l: Layer, rest: string)
    ensures Built(o, AfterField(ls, l), "," + rest) == Built(o, AtField(ls, l), rest)
  {
    hide Built, SetLayer;
    SpecialIsToken(o, AfterField(ls, l), ',', rest);
  }

  /** Fields i to j - 1, each with the comma after it. */
  lemma {:induction false} FieldsBuiltTo(o: Order, ls: seq<Layer>, l: Layer, src: Layer, i: nat, j: nat, rest: string)
    returns (l': Layer)
    requires IsDescribed(src) && src.kind == l.kind && InProgress(l, src.data, i) && i <= j < |Printed(l.kind)|
    requires forall k | i <= k < j && Printed(l.kind)[k] == TcpFlags :: IsReadable(src)
    ensures l'.kind == l.kind && InProgress(l', src.data, j)
    ensures Built(o, AtField(ls, l), FieldsText(src, i) + rest) == Built(o, AtField(ls, l'), FieldsText(src, j) + rest)
    decreases j - i
  {
    hide Built, FieldsText, InProgress, Value, Name, IsReadable, IsDescribed;
    if i == j {
      l' := l;
    } else {
      var f := Printed(l.kind)[i];
      var more := FieldsText(src, i + 1) + rest;
      FieldHome(l.kind, f);
      DescribedSize(src);
      var next := FieldBuilt(o, ls, l, src, i, "," + more);
      FieldsTextStep(src, i);
      assert FieldsText(src, i) + rest == Name(f) + "=" + Value(f, src.data) + ("," + more);
      CommaBuilt(o, ls, next, more);
      l' := FieldsBuiltTo(o, ls, next, src, i + 1, j, rest);
    }
  }

  lemma ClosingBuilt(o: Order, ls: seq<Layer>, l: Layer, rest: string)
    ensures Built(o, AfterField(ls, l), ")" + rest) == Built(o, Machine(LenOrPlus, ls + [l], ""), rest)
  {
    hide Built, SetLayer;
    SpecialIsToken(o, AfterField(ls, l), ')', rest);
  }

  // --- one layer ------------------------------------------------------------------------------------------

  /** The layer as it starts. */
  function Fresh(k: Kind): Layer {
    Layer(k, ArsSplit.FreshHeader(k), {})
  }

  lemma KeywordsAreKnown(k: Kind)
    requires k == Ip || k == Udp || k == Tcp || k == Data
    ensures KeywordOf(Keyword(k)) == Some(k) && IsToken(Keyword(k))
  {
    SameWordRefl(Keyword(k));
    Compare("ip", Keyword(k));
    Compare("udp", Keyword(k));
    Compare("tcp", Keyword(k));
    Compare("data", Keyword(k));
    hide SameWord;
  }

  lemma TokenBuilt(o: Order, m: Machine, w: string, rest: string)
    requires IsToken(w) && StopsHere(rest)
    ensures Built(o, m, w + rest) == GoesOn(o, Step(o, m, w), rest)
  {
    hide Step, Built;
    WordIsToken(o, m, w, rest);
  }

  /** The keyword and the bracket start a layer. */
  lemma KeywordBuilt(o: Order, ls: seq<Layer>, k: Kind, rest: string)
    requires |ls| < MAX_LAYER && (k == Ip || k == Udp || k == Tcp || k == Data)
    ensures Built(o, Begin(ls), Keyword(k) + "(" + rest) == Built(o, AtField(ls, Fresh(k)), rest)
  {
    KeywordsAreKnown(k);
    hide Built, SetLayer, KeywordOf, Keyword, IsToken;
    assert Keyword(k) + "(" + rest == Keyword(k) + ("(" + rest);
    TokenBuilt(o, Begin(ls), Keyword(k), "(" + rest);
    SpecialIsToken(o, Machine(ObraceOrPlus, ls + [Fresh(k)], ""), '(', rest);
  }

  /** A layer of a description read back: its bytes, all its fields set by hand. */
  predicate IsRebuilt(r: Layer, l: Layer) {
    r.kind == l.kind && r.data == l.data && AllTaken(l.kind) <= r.flags
  }

  lemma FreshIsInProgress(k: Kind, d: seq<Byte>)
    requires (k == Ip || k == Udp || k == Tcp) && |d| == HeaderSize(k)
    ensures InProgress(Fresh(k), d, 0)
  {
  }

  lemma Complete(r: Layer, d: seq<Byte>)
    requires InProgress(r, d, |Printed(r.kind)|)
    ensures r.data == d && AllTaken(r.kind) <= r.flags
  {
    hide FieldsDone;
    FieldsDoneCopy(r.kind, r.data, r.flags, d);
  }

  /** The last field, and the bracket that closes the layer. */
  lemma LastFieldBuilt(o: Order, ls: seq<Layer>, last: Layer, l: Layer, rest: string) returns (r: Layer)
    requires IsDescribed(l) && l.kind == last.kind && l.kind != Data && IsReadable(l)
    requires InProgress(last, l.data, |Printed(l.kind)| - 1)
    ensures IsRebuilt(r, l)
    ensures Built(o, AtField(ls, last), FieldsText(l, |Printed(l.kind)| - 1) + (")" + rest)) ==
            Built(o, Machine(LenOrPlus, ls + [r], ""), rest)
  {
    DescribedSize(l);
    hide Built, FieldsText, InProgress, Value, Name, IsReadable, IsDescribed, FieldsDone, Printed;
    var i := |Printed(l.kind)| - 1;
    var f := Printed(l.kind)[i];
    FieldHome(l.kind, f);
    r := FieldBuilt(o, ls, last, l, i, ")" + rest);
    FieldsTextStep(l, i);
    assert FieldsText(l, i) == Name(f) + "=" + Value(f, l.data);
    Complete(r, l.data);
    ClosingBuilt(o, ls, r, rest);
  }

  /** All the fields of a header. */
  lemma HeaderBuilt(o: Order, ls: seq<Layer>, l: Layer, rest: string) returns (r: Layer)
    requires IsDescribed(l) && l.kind != Data && IsReadable(l)
    ensures IsRebuilt(r, l)
    ensures Built(o, AtField(ls, Fresh(l.kind)), FieldsText(l, 0) + (")" + rest)) ==
            Built(o, Machine(LenOrPlus, ls + [r], ""), rest)
  {
    FreshIsInProgress(l.kind, l.data);
    DescribedSize(l);
    hide Built, FieldsText, InProgress, IsReadable, IsRebuilt, Printed;
    var last := FieldsBuiltTo(o, ls, Fresh(l.kind), l, 0, |Printed(l.kind)| - 1, ")" + rest);
    r := LastFieldBuilt(o, ls, last, l, rest);
  }

  lemma DataFieldsText(l: Layer)
    requires l.kind == Data
    ensures FieldsText(l, 0) == "hex=" + HexText(l.data)
  {
    hide HexText;
    assert FieldsText(l, 0) == "hex" + "=" + HexText(l.data) + "";
  }

  lemma FreshData()
    ensures Fresh(Data) == Layer(Data, [], {})
  {
    assert |ArsSplit.FreshHeader(Data)| == 0;
  }

  lemma HexName()
    ensures FieldOf(Data, "hex") == Some(HexData) && TakenBy(HexData) == {}
  {
    NamesAreKnown(Data, HexData);
  }

  lemma HexWritten(o: Order, h: seq<Byte>, v: string, d: seq<Byte>)
    requires DecodeHex(v) == Some(d)
    ensures Written(o, HexData, h, v) == Some(h + d)
  {
  }

  lemma HexIsSet(o: Order, d: seq<Byte>)
    ensures SetLayer(o, Fresh(Data), "hex", HexText(d)) == Ok(Layer(Data, d, {}))
  {
    hide HexText, DecodeHex, FieldOf, Fresh, Written, TakenBy;
    HexName();
    HexReads(d);
    FreshData();
    HexWritten(o, [], HexText(d), d);
    assert [] + d == d;
    assert Fresh(Data).flags + TakenBy(HexData) == {};
  }

  lemma HexIsToken(l: Layer)
    requires l.kind == Data && IsReadable(l)
    ensures IsToken(HexText(l.data)) && IsToken("hex")
  {
    HexTextIsPlain(l.data);
    NamesAreWords(HexData);
  }

  /** The data of a data layer. */
  lemma DataBuilt(o: Order, ls: seq<Layer>, l: Layer, rest: string)
    requires l.kind == Data && IsReadable(l)
    ensures Built(o, AtField(ls, Fresh(Data)), FieldsText(l, 0) + (")" + rest)) ==
            Built(o, Machine(LenOrPlus, ls + [Layer(Data, l.data, {})], ""), rest)
  {
    hide Built, FieldsText, SetLayer, HexText, Fresh, IsToken, AtField, AfterField;
    var v := HexText(l.data);
    HexIsToken(l);
    DataFieldsText(l);
    HexIsSet(o, l.data);
    FreshData();
    assert "hex=" + v + (")" + rest) == "hex" + "=" + (v + (")" + rest));
    NameBuilt(o, ls, Fresh(Data), "hex", v + (")" + rest));
    ValueBuilt(o, ls, Fresh(Data), Layer(Data, l.data, {}), "hex", v, ")" + rest);
    ClosingBuilt(o, ls, Layer(Data, l.data, {}), rest);
  }

  /** A readable layer. */
  lemma LayerBuilt(o: Order, ls: seq<Layer>, l: Layer, rest: string) returns (r: Layer)
    requires IsDescribed(l) && IsReadable(l) && |ls| < MAX_LAYER
    ensures IsRebuilt(r, l)
    ensures Built(o, Begin(ls), LayerText(l) + rest) == Built(o, Machine(LenOrPlus, ls + [r], ""), rest)
  {
    DescribedSize(l);
    hide Built, FieldsText, Keyword, IsReadable;
    var fields := FieldsText(l, 0) + (")" + rest);
    assert LayerText(l) + rest == Keyword(l.kind) + "(" + fields;
    KeywordBuilt(o, ls, l.kind, fields);
    if l.kind == Data {
      DataBuilt(o, ls, l, rest);
      r := Layer(Data, l.data, {});
    } else {
      r := HeaderBuilt(o, ls, l, rest);
    }
  }

  // --- a size after a layer --------------------------------------------------------------------------------

  lemma DigitsAreNoPlus(n: nat)
    ensures Dec(n) != "+"
  {
    NumeralRoundTrip(n, 10);
    assert 0 <= CharValue(Dec(n)[0]) < 10;
  }

  /** A number after the bracket cuts the layer to that many bytes, if it has them. */
  lemma SizedLayerBuilt(o: Order, ls: seq<Layer>, l: Layer, n: nat, rest: string) returns (r: Layer)
    requires IsDescribed(l) && IsReadable(l) && |ls| < MAX_LAYER && n <= 0xFFFF_FFFF && StopsHere(rest)
    ensures 1 <= n <= |l.data| ==> r.kind == l.kind && r.data == l.data[..n]
    ensures Built(o, Begin(ls), LayerText(l) + (Dec(n) + rest)) ==
            if 1 <= n <= |l.data| then Built(o, Machine(GetPlus, ls + [r], ""), rest) else Err(Invalid)
  {
    hide Built, LayerText, Dec, IsReadable, Atou;
    r := LayerBuilt(o, ls, l, Dec(n) + rest);
    DecIsPlain(n);
    AtouDec(n);
    var m := Machine(LenOrPlus, ls + [r], "");
    DigitsAreNoPlus(n);
    TokenBuilt(o, m, Dec(n), rest);
    assert Last(m.layers) == r;
    if 1 <= n <= |l.data| {
      r := r.(data := r.data[..n]);
      assert WithLast(m.layers, r) == ls + [r];
    }
  }

  // --- the whole packet -----------------------------------------------------------------------------------

  predicate AllReadable(ls: seq<Layer>) {
    forall i | 0 <= i < |ls| :: IsReadable(ls[i])
  }

  predicate AllRebuilt(rs: seq<Layer>, ls: seq<Layer>) {
    |rs| == |ls| && forall i | 0 <= i < |rs| :: IsRebuilt(rs[i], ls[i])
  }

  lemma PlusBuilt(o: Order, done: seq<Layer>, rest: string)
    ensures Built(o, Machine(LenOrPlus, done, ""), "+" + rest) == Built(o, Begin(done), rest)
  {
    hide Built, Resized;
    SpecialIsToken(o, Machine(LenOrPlus, done, ""), '+', rest);
  }

  lemma MoreStops(ls: seq<Layer>)
    requires AllDescribed(ls)
    ensures StopsHere(MoreText(ls))
  {
    hide LayerText;
  }

  /** The layers after the first, each after its plus. */
  lemma {:induction false} MoreBuilt(o: Order, done: seq<Layer>, ls: seq<Layer>) returns (rs: seq<Layer>)
    requires AllDescribed(ls) && AllReadable(ls) && |done| + |ls| <= MAX_LAYER
    ensures AllRebuilt(rs, ls) && Built(o, Machine(LenOrPlus, done, ""), MoreText(ls)) == Ok(done + rs)
    decreases |ls|
  {
    hide Step, LayerText, IsReadable, IsDescribed, IsRebuilt;
    if |ls| == 0 {
      rs := [];
      assert done + [] == done;
    } else {
      var text := LayerText(ls[0]) + MoreText(ls[1..]);
      assert MoreText(ls) == "+" + text;
      PlusBuilt(o, done, text);
      MoreStops(ls[1..]);
      hide Built;
      var r := LayerBuilt(o, done, ls[0], MoreText(ls[1..]));
      var more := MoreBuilt(o, done + [r], ls[1..]);
      rs := [r] + more;
      assert done + [r] + more == done + rs;
    }
  }

  // --- what cannot be read back ------------------------------------------------------------------------------

  lemma InProgressSize(l: Layer, d: seq<Byte>, i: nat)
    requires InProgress(l, d, i)
    ensures |l.data| == HeaderSize(l.kind)
  {
  }

  lemma FlagsThenRest(fields: string, rest: string)
    requires |fields| > 4 && fields[..4] == "win="
    ensures "flags=" + "," + fields + rest == "flags=" + ("," + (fields + rest))
    ensures |fields + rest| > 4 && (fields + rest)[..4] == "win="
  {
  }

  lemma TcpFieldOrder()
    ensures |Printed(Tcp)| == 10 && Printed(Tcp)[6] == TcpFlags && TcpFlags !in Printed(Tcp)[..6]
    ensures forall k | 0 <= k < 6 :: Printed(Tcp)[k] != TcpFlags
  {
  }

  lemma FlagsAreEmpty(l: Layer)
    requires IsDescribed(l) && l.kind == Tcp && !IsReadable(l)
    ensures Value(TcpFlags, l.data) == ""
  {
    FlagsNeedLetters(l.data[13]);
  }

  lemma FlagsText(l: Layer)
    requires IsDescribed(l) && l.kind == Tcp && !IsReadable(l)
    ensures FieldsText(l, 6) == "flags=" + "," + FieldsText(l, 7)
  {
    FlagsAreEmpty(l);
    FieldsTextStep(l, 6);
    hide FieldsText, Value;
    assert "flags" + "=" + "" + ("," + FieldsText(l, 7)) == "flags=" + "," + FieldsText(l, 7);
  }

  lemma StartsWithWin(l: Layer)
    requires IsDescribed(l) && l.kind == Tcp
    ensures |FieldsText(l, 7)| > 4 && FieldsText(l, 7)[..4] == "win="
  {
    FieldsTextStep(l, 7);
    hide FieldsText, Value;
  }

  lemma FlagsFailAt(o: Order, ls: seq<Layer>, at6: Layer, rest: string)
    requires at6.kind == Tcp && |at6.data| >= 20 && |rest| > 4 && rest[..4] == "win="
    ensures Built(o, AtField(ls, at6), "flags=" + ("," + rest)).Err?
  {
    NamesAreWords(TcpFlags);
    NamesAreWords(Win);
    hide Built, SetLayer, IsToken;
    assert "flags=" + ("," + rest) == "flags" + "=" + ("," + rest);
    NameBuilt(o, ls, at6, "flags", "," + rest);
    var m := Machine(GetValue, ls + [at6], "flags");
    SpecialIsToken(o, m, ',', rest);
    var r := SetLayer(o, at6, "flags", ",");
    if r.Ok? {
      var after := Machine(CommaOrCbrace, WithLast(m.layers, r.value), "");
      assert rest == "win" + rest[3..] && rest[3] == '=';
      TokenBuilt(o, after, "win", rest[3..]);
    }
  }

  /** No flags: the comma is taken for the value, and the next name for a comma. */
  lemma NoFlagsFail(o: Order, ls: seq<Layer>, l: Layer, rest: string)
    requires IsDescribed(l) && l.kind == Tcp && !IsReadable(l)
    ensures Built(o, AtField(ls, Fresh(Tcp)), FieldsText(l, 0) + rest).Err?
  {
    FreshIsInProgress(Tcp, l.data);
    TcpFieldOrder();
    hide Built, FieldsText, InProgress, Printed, IsReadable;
    var at6 := FieldsBuiltTo(o, ls, Fresh(Tcp), l, 0, 6, rest);
    FlagsText(l);
    StartsWithWin(l);
    FlagsThenRest(FieldsText(l, 7), rest);
    InProgressSize(at6, l.data, 6);
    FlagsFailAt(o, ls, at6, FieldsText(l, 7) + rest);
  }

  lemma OddHexFails(o: Order, v: string)
    requires |v| % 2 == 1
    ensures SetLayer(o, Fresh(Data), "hex", v).Err?
  {
    HexName();
    FreshData();
    hide FieldOf, Fresh;
  }

  /** No data: the bracket is taken for the value. */
  lemma NoDataFails(o: Order, ls: seq<Layer>, rest: string)
    ensures Built(o, AtField(ls, Fresh(Data)), "hex=" + (")" + rest)).Err?
  {
    NamesAreWords(HexData);
    HexName();
    hide Built, IsToken, FieldOf;
    assert "hex=" + (")" + rest) == "hex" + "=" + (")" + rest);
    NameBuilt(o, ls, Fresh(Data), "hex", ")" + rest);
    SpecialIsToken(o, Machine(GetValue, ls + [Fresh(Data)], "hex"), ')', rest);
    OddHexFails(o, ")");
  }

  /** Too much data: the token is cut after an odd number of digits. */
  lemma LongDataFails(o: Order, ls: seq<Layer>, d: seq<Byte>, rest: string)
    requires |d| > 5999
    ensures Built(o, AtField(ls, Fresh(Data)), "hex=" + HexText(d) + rest).Err?
  {
    NamesAreWords(HexData);
    HexTextIsPlain(d);
    hide Built, IsToken, HexText, Plain, SetLayer, Fresh;
    var v := HexText(d);
    assert "hex=" + v + rest == "hex" + "=" + (v + rest);
    NameBuilt(o, ls, Fresh(Data), "hex", v + rest);
    LongWordIsCut(o, Machine(GetValue, ls + [Fresh(Data)], "hex"), v, rest);
    OddHexFails(o, v[..MAX_TOKEN]);
  }

  lemma NoHexText(d: seq<Byte>)
    requires |d| == 0
    ensures HexText(d) == ""
  {
  }

  lemma UnreadableFails(o: Order, ls: seq<Layer>, l: Layer, rest: string)
    requires IsDescribed(l) && !IsReadable(l) && |ls| < MAX_LAYER
    ensures Built(o, Begin(ls), LayerText(l) + rest).Err?
  {
    hide Built, FieldsText, Keyword, Fresh, HexText;
    var fields := FieldsText(l, 0) + (")" + rest);
    assert LayerText(l) + rest == Keyword(l.kind) + "(" + fields;
    KeywordBuilt(o, ls, l.kind, fields);
    if l.kind == Tcp {
      NoFlagsFail(o, ls, l, ")" + rest);
    } else {
      DataFieldsText(l);
      if |l.data| == 0 {
        NoHexText(l.data);
        assert "hex=" + "" + (")" + rest) == "hex=" + (")" + rest);
        NoDataFails(o, ls, rest);
      } else {
        LongDataFails(o, ls, l.data, ")" + rest);
      }
    }
  }

  lemma {:induction false} MoreFails(o: Order, done: seq<Layer>, ls: seq<Layer>)
    requires AllDescribed(ls) && !AllReadable(ls) && |done| + |ls| <= MAX_LAYER
    ensures Built(o, Machine(LenOrPlus, done, ""), MoreText(ls)).Err?
    decreases |ls|
  {
    hide Step, LayerText, IsReadable, IsDescribed, IsRebuilt;
    var text := LayerText(ls[0]) + MoreText(ls[1..]);
    assert MoreText(ls) == "+" + text;
    PlusBuilt(o, done, text);
    MoreStops(ls[1..]);
    hide Built;
    if IsReadable(ls[0]) {
      var r := LayerBuilt(o, done, ls[0], MoreText(ls[1..]));
      MoreFails(o, done + [r], ls[1..]);
    } else {
      UnreadableFails(o, done, ls[0], MoreText(ls[1..]));
    }
  }

  // --- compiling what was read back ---------------------------------------------------------------------------

  /** With every field set by hand there is nothing to fill in. */
  lemma RebuiltIsCompiled(rs: seq<Layer>, ls: seq<Layer>, j: nat)
    requires j < |rs| && AllDescribed(ls) && AllRebuilt(rs, ls) && WellSized(rs)
    ensures CompiledLayer(rs, j) == Ok(rs[j])
  {
    hide Bytes, OptionBytes, ProtocolAt, UpperCksum;
    assert IsRebuilt(rs[j], ls[j]) && IsDescribed(ls[j]);
  }

  lemma {:induction false} NothingToCompile(rs: seq<Layer>, ls: seq<Layer>, n: nat)
    requires n <= |rs| && AllDescribed(ls) && AllRebuilt(rs, ls) && WellSized(rs)
    ensures CompiledBelow(rs, n) == Ok(rs)
    decreases n
  {
    if n > 0 {
      RebuiltIsCompiled(rs, ls, n - 1);
      assert rs[n - 1 := rs[n - 1]] == rs;
      NothingToCompile(rs, ls, n - 1);
    }
  }

  lemma RebuiltSizes(rs: seq<Layer>, ls: seq<Layer>)
    requires AllDescribed(ls) && AllRebuilt(rs, ls)
    ensures WellSized(rs)
  {
    forall i | 0 <= i < |rs|
      ensures |rs[i].data| >= HeaderSize(rs[i].kind)
    {
      assert IsRebuilt(rs[i], ls[i]) && IsDescribed(ls[i]);
    }
  }

  lemma {:induction false} RebuiltBytes(rs: seq<Layer>, ls: seq<Layer>)
    requires AllRebuilt(rs, ls)
    ensures Bytes(rs) == Bytes(ls)
  {
    if |rs| > 0 {
      assert IsRebuilt(rs[0], ls[0]);
      forall i | 0 <= i < |rs[1..]|
        ensures IsRebuilt(rs[1..][i], ls[1..][i])
      {
        assert IsRebuilt(rs[i + 1], ls[i + 1]);
      }
      RebuiltBytes(rs[1..], ls[1..]);
    }
  }

  /** Describe, build, compile: for every stack of IPv4, TCP, UDP and data layers, the
      description builds exactly when every TCP header has some flag and every data layer
      has 1 to 5999 bytes; and then each layer has the bytes it had, whatever lengths,
      protocol numbers and checksums those are, and compiling changes none of them. */
  lemma {:induction false} DescribeThenBuild(o: Order, ls: seq<Layer>)
    requires AllDescribed(ls) && 0 < |ls| <= MAX_LAYER
    ensures var r := Built(o, Begin([]), PacketText(ls));
            && (r.Ok? <==> AllReadable(ls))
            && (r.Ok? ==> AllRebuilt(r.value, ls) && WellSized(r.value) && Compiled(r.value) == r &&
                          Bytes(r.value) == Bytes(ls))
  {
    hide Built, LayerText, MoreText, IsReadable, IsRebuilt, Bytes, CompiledLayer, CompiledBelow, IsDescribed;
    MoreStops(ls[1..]);
    if !IsReadable(ls[0]) {
      UnreadableFails(o, [], ls[0], MoreText(ls[1..]));
    } else {
      var first := LayerBuilt(o, [], ls[0], MoreText(ls[1..]));
      assert [] + [first] == [first];
      if AllReadable(ls) {
        var more := MoreBuilt(o, [first], ls[1..]);
        var rs := [first] + more;
        RebuiltSizes(rs, ls);
        NothingToCompile(rs, ls, |rs|);
        RebuiltBytes(rs, ls);
      } else {
        assert !AllReadable(ls[1..]);
        MoreFails(o, [first], ls[1..]);
      }
    }
  }
}
