// Descriptions with any settings: what they build, and what compiling fills in.
module ApdFill {
  import opened Checksum
  import opened Ars
  import opened ArsCompile
  import opened ArsSettled
  import opened ArsWire
  import opened Options
  import opened ApdNumber
  import opened ApdField
  import opened Apd
  import opened ApdRoundTrip
  import opened ApdSet

  // --- what a description says ---------------------------------------------------------------

  datatype Setting = Setting(name: string, value: string)

  /** keyword, keyword(name=value,...) or keyword(name=value,...)size */
  datatype Description = Description(keyword: string, settings: Option<seq<Setting>>, size: string)

  predicate IsSetting(s: Setting) {
    IsToken(s.name) && IsToken(s.value)
  }

  /** Words without special characters, and no size without the brackets. */
  predicate IsDescription(d: Description) {
    && IsToken(d.keyword)
    && match d.settings
       case None => d.size == ""
       case Some(ss) => (d.size == "" || IsToken(d.size)) && forall i | 0 <= i < |ss| :: IsSetting(ss[i])
  }

  function SettingsText(ss: seq<Setting>): string {
    if |ss| == 0 then ""
    else ss[0].name + "=" + ss[0].value + if |ss| == 1 then "" else "," + SettingsText(ss[1..])
  }

  function TextOf(d: Description): string {
    d.keyword + match d.settings case None => "" case Some(ss) => "(" + SettingsText(ss) + ")" + d.size
  }

  /** Descriptions with a plus between them. */
  function Joint(ds: seq<Description>): string {
    if |ds| == 0 then "" else TextOf(ds[0]) + if |ds| == 1 then "" else "+" + Joint(ds[1..])
  }

  function KindCalled(word: string): Option<Kind> {
    if Is(word, "ip") then Some(Ip) else if Is(word, "udp") then Some(Udp) else if Is(word, "tcp") then Some(Tcp)
    else if Is(word, "data") then Some(Data) else None
  }

  function Zeros(n: nat): (z: seq<Byte>)
    ensures |z| == n
  {
    seq(n, i => 0)
  }

  /** One setting after the other. */
  function AfterSettings(o: Order, l: Layer, ss: seq<Setting>): (r: Result<Layer>)
    requires |l.data| >= HeaderSize(l.kind)
    ensures r.Ok? ==> r.value.kind == l.kind && |r.value.data| >= |l.data|
    decreases |ss|
  {
    if |ss| == 0 then Ok(l)
    else
      var r := SetLayer(o, l, ss[0].name, ss[0].value);
      if r.Err? then r else AfterSettings(o, r.value, ss[1..])
  }

  /** A header of zeroes with the settings made in it, cut to the size. */
  function LayerOf(o: Order, d: Description): Result<Layer> {
    match KindCalled(d.keyword)
    case None => Err(Invalid)
    case Some(k) =>
      match AfterSettings(o, Layer(k, Zeros(HeaderSize(k)), {}), if d.settings.Some? then d.settings.value else [])
      case Err(e) => Err(e)
      case Ok(l) =>
        if d.size == "" then Ok(l)
        else if 1 <= Atou(d.size) <= |l.data| then Ok(l.(data := l.data[..Atou(d.size)])) else Err(Invalid)
  }

  function LayersOf(o: Order, done: seq<Layer>, ds: seq<Description>): Result<seq<Layer>>
    decreases |ds|
  {
    if |ds| == 0 then Ok(done)
    else if |done| >= 256 then Err(Invalid)
    else match LayerOf(o, ds[0])
      case Err(e) => Err(e)
      case Ok(l) => LayersOf(o, done + [l], ds[1..])
  }

  // --- building it -----------------------------------------------------------------------------

  lemma NameIsNoBracket(name: string)
    requires IsToken(name)
    ensures name != ")" && name != "+"
  {
    assert name == ")" || name == "+" ==> Special(name[0]);
  }

  lemma SettingBuilt(o: Order, ls: seq<Layer>, l: Layer, s: Setting, rest: string)
    requires IsSetting(s) && StopsHere(rest) && |l.data| >= HeaderSize(l.kind)
    ensures Built(o, AtField(ls, l), s.name + "=" + s.value + rest) ==
            var r := SetLayer(o, l, s.name, s.value);
            if r.Err? then Err(r.error) else Built(o, AfterField(ls, r.value), rest)
  {
    hide Built, SetLayer, IsToken;
    assert s.name + "=" + s.value + rest == s.name + "=" + (s.value + rest);
    NameIsNoBracket(s.name);
    NameBuilt(o, ls, l, s.name, s.value + rest);
    var m := Machine(GetValue, ls + [l], s.name);
    TokenBuilt(o, m, s.value, rest);
    assert Last(m.layers) == l;
    var r := SetLayer(o, l, s.name, s.value);
    assert r.Ok? ==> WithLast(m.layers, r.value) == ls + [r.value];
  }

  lemma SettingKeepsSize(o: Order, l: Layer, s: Setting)
    requires |l.data| >= HeaderSize(l.kind)
    ensures var r := SetLayer(o, l, s.name, s.value); r.Ok? ==> r.value.kind == l.kind && |r.value.data| >= |l.data|
  {
    hide Written, FieldOf;
  }

  /** The settings and the closing bracket. */
  lemma {:induction false} SettingsBuilt(o: Order, ls: seq<Layer>, l: Layer, ss: seq<Setting>, rest: string)
    requires (forall i | 0 <= i < |ss| :: IsSetting(ss[i])) && |l.data| >= HeaderSize(l.kind)
    ensures Built(o, AtField(ls, l), SettingsText(ss) + ")" + rest) ==
            var r := AfterSettings(o, l, ss);
            if r.Err? then Err(r.error) else Built(o, Machine(LenOrPlus, ls + [r.value], ""), rest)
    decreases |ss|
  {
    hide Built, SetLayer, IsSetting;
    if |ss| == 0 {
      assert SettingsText(ss) + ")" + rest == [')'] + rest;
      SpecialIsToken(o, AtField(ls, l), ')', rest);
    } else {
      var more := (if |ss| == 1 then "" else "," + SettingsText(ss[1..])) + ")" + rest;
      assert SettingsText(ss) + ")" + rest == ss[0].name + "=" + ss[0].value + more;
      SettingBuilt(o, ls, l, ss[0], more);
      var r := SetLayer(o, l, ss[0].name, ss[0].value);
      SettingKeepsSize(o, l, ss[0]);
      if r.Ok? {
        if |ss| == 1 {
          assert more == ")" + rest;
          ClosingBuilt(o, ls, r.value, rest);
        } else {
          assert more == "," + (SettingsText(ss[1..]) + ")" + rest);
          CommaBuilt(o, ls, r.value, SettingsText(ss[1..]) + ")" + rest);
          SettingsBuilt(o, ls, r.value, ss[1..], rest);
        }
      }
    }
  }

  lemma Mirrored(a: string, b: string)
    ensures Is(a, b) <==> Is(b, a)
  {
  }

  lemma KeywordsAre(word: string)
    ensures KeywordOf(word) == KindCalled(word)
  {
    hide Is, SameWord;
    SameWordIs("ip", word);
    SameWordIs("udp", word);
    SameWordIs("tcp", word);
    SameWordIs("data", word);
    Mirrored("ip", word);
    Mirrored("udp", word);
    Mirrored("tcp", word);
    Mirrored("data", word);
  }

  lemma FreshIsZero(k: Kind)
    requires k == Ip || k == Udp || k == Tcp || k == Data
    ensures Fresh(k) == Layer(k, Zeros(HeaderSize(k)), {})
  {
  }

  /** Where the machine stands behind a layer. */
  function EndMode(d: Description): Mode {
    if d.settings.None? then ObraceOrPlus else if d.size == "" then LenOrPlus else GetPlus
  }

  /** What is left to build, if what came before it was built. */
  function ThenBuilt(o: Order, mode: Mode, r: Result<seq<Layer>>, rest: string): Result<seq<Layer>> {
    if r.Err? then Err(r.error) else Built(o, Machine(mode, r.value, ""), rest)
  }

  function Appended(ls: seq<Layer>, r: Result<Layer>): Result<seq<Layer>> {
    if r.Err? then Err(r.error) else Ok(ls + [r.value])
  }

  /** The rest is over or starts with a plus. */
  predicate EndsHere(rest: string) {
    |rest| > 0 ==> rest[0] == '+'
  }

  lemma SizeBuilt(o: Order, ls: seq<Layer>, l: Layer, size: string, rest: string)
    requires IsToken(size) && EndsHere(rest)
    ensures Built(o, Machine(LenOrPlus, ls + [l], ""), size + rest) ==
            if 1 <= Atou(size) <= |l.data| then
              Built(o, Machine(GetPlus, ls + [l.(data := l.data[..Atou(size)])], ""), rest)
            else Err(Invalid)
  {
    hide Built, Atou, IsToken;
    var m := Machine(LenOrPlus, ls + [l], "");
    NameIsNoBracket(size);
    TokenBuilt(o, m, size, rest);
    assert Last(m.layers) == l;
    if 1 <= Atou(size) <= |l.data| {
      var cut := l.(data := l.data[..Atou(size)]);
      assert WithLast(m.layers, cut) == ls + [cut];
    }
  }

  lemma WordBuilt(o: Order, ls: seq<Layer>, word: string, rest: string)
    requires IsToken(word) && StopsHere(rest) && |ls| < MAX_LAYER
    ensures Built(o, Begin(ls), word + rest) ==
            if KindCalled(word).None? then Err(Invalid)
            else Built(o, Machine(ObraceOrPlus, ls + [Fresh(KindCalled(word).value)], ""), rest)
  {
    hide Built, IsToken, KeywordOf, KindCalled;
    KeywordsAre(word);
    TokenBuilt(o, Begin(ls), word, rest);
  }

  lemma KnownKinds(word: string)
    ensures KindCalled(word).Some? ==> KindCalled(word).value in [Ip, Udp, Tcp, Data]
  {
    hide Is;
  }

  lemma NoSettings(o: Order, l: Layer)
    requires |l.data| >= HeaderSize(l.kind)
    ensures AfterSettings(o, l, []) == Ok(l)
  {
  }

  /** A layer and what follows it. */
  lemma DescriptionBuilt(o: Order, ls: seq<Layer>, d: Description, rest: string)
    requires IsDescription(d) && EndsHere(rest) && |ls| < MAX_LAYER
    ensures Built(o, Begin(ls), TextOf(d) + rest) == ThenBuilt(o, EndMode(d), Appended(ls, LayerOf(o, d)), rest)
  {
    hide Built, IsToken, KindCalled, IsSetting, SettingsText, Fresh, Atou, AfterSettings, IsSetting;
    KnownKinds(d.keyword);
    match d.settings {
      case None =>
        assert TextOf(d) == d.keyword;
        WordBuilt(o, ls, d.keyword, rest);
        if KindCalled(d.keyword).Some? {
          FreshIsZero(KindCalled(d.keyword).value);
          NoSettings(o, Fresh(KindCalled(d.keyword).value));
        }
      case Some(ss) =>
        var tail := d.size + rest;
        assert TextOf(d) + rest == d.keyword + ("(" + (SettingsText(ss) + ")" + tail));
        WordBuilt(o, ls, d.keyword, "(" + (SettingsText(ss) + ")" + tail));
        if KindCalled(d.keyword).Some? {
          var k := KindCalled(d.keyword).value;
          FreshIsZero(k);
          var l := Fresh(k);
          SpecialIsToken(o, Machine(ObraceOrPlus, ls + [l], ""), '(', SettingsText(ss) + ")" + tail);
          SettingsBuilt(o, ls, l, ss, tail);
          var r := AfterSettings(o, l, ss);
          if d.size == "" {
            assert tail == rest;
          } else if r.Ok? {
            SizeBuilt(o, ls, r.value, d.size, rest);
          }
        }
    }
  }

  lemma PlusAfter(o: Order, d: Description, done: seq<Layer>, rest: string)
    ensures Built(o, Machine(EndMode(d), done, ""), "+" + rest) == Built(o, Begin(done), rest)
    ensures Built(o, Machine(EndMode(d), done, ""), "") == Ok(done)
  {
    hide Resized, SetLayer, TokenLength;
    SpecialIsToken(o, Machine(EndMode(d), done, ""), '+', rest);
  }

  predicate AllDescriptions(ds: seq<Description>) {
    forall i | 0 <= i < |ds| :: IsDescription(ds[i])
  }

  /** A packet that is full takes no layer. */
  lemma TooManyLayers(o: Order, done: seq<Layer>, d: Description, rest: string)
    requires IsDescription(d) && |done| == MAX_LAYER && EndsHere(rest)
    ensures Built(o, Begin(done), TextOf(d) + rest) == Err(Invalid)
  {
    hide Built, IsToken, KeywordOf, SettingsText;
    var tail := (match d.settings case None => "" case Some(ss) => "(" + SettingsText(ss) + ")" + d.size) + rest;
    assert TextOf(d) + rest == d.keyword + tail;
    TokenBuilt(o, Begin(done), d.keyword, tail);
  }

  /** All the layers and what follows them. */
  lemma {:induction false} LayersBuilt(o: Order, done: seq<Layer>, ds: seq<Description>, rest: string)
    requires |ds| > 0 && AllDescriptions(ds) && EndsHere(rest) && |done| <= MAX_LAYER
    ensures Built(o, Begin(done), Joint(ds) + rest) ==
            ThenBuilt(o, EndMode(ds[|ds| - 1]), LayersOf(o, done, ds), rest)
    decreases |ds|
  {
    hide Built, IsDescription, LayerOf, TextOf, EndMode;
    var more := (if |ds| == 1 then "" else "+" + Joint(ds[1..])) + rest;
    assert Joint(ds) + rest == TextOf(ds[0]) + more;
    if |done| == MAX_LAYER {
      TooManyLayers(o, done, ds[0], more);
    } else {
      DescriptionBuilt(o, done, ds[0], more);
      var r := LayerOf(o, ds[0]);
      if r.Ok? {
        var next := done + [r.value];
        if |ds| == 1 {
          assert more == rest;
          assert LayersOf(o, next, ds[1..]) == Ok(next);
        } else {
          assert more == "+" + (Joint(ds[1..]) + rest);
          PlusAfter(o, ds[0], next, Joint(ds[1..]) + rest);
          LayersBuilt(o, next, ds[1..], rest);
        }
      }
    }
  }

  /** Build a description: every description in words builds the layers it describes, or
      is an error exactly when one of them is none. */
  lemma BuildsWhatIsDescribed(o: Order, ds: seq<Description>)
    requires |ds| > 0 && AllDescriptions(ds)
    ensures Built(o, Begin([]), Joint(ds)) == LayersOf(o, [], ds)
  {
    hide Built, LayersOf, Joint, IsDescription;
    assert Joint(ds) + "" == Joint(ds);
    LayersBuilt(o, [], ds, "");
    var r := LayersOf(o, [], ds);
    if r.Ok? {
      PlusAfter(o, ds[|ds| - 1], r.value, "");
    }
  }

  lemma NotYet(o: Order, m: Machine)
    requires !MayEnd(m.mode)
    ensures Built(o, m, "") == Err(Invalid)
  {
  }

  /** What comes after a plus. */
  lemma AfterPlus(o: Order, ds: seq<Description>, tail: string)
    requires |ds| > 0 && AllDescriptions(ds)
    ensures var r, b := LayersOf(o, [], ds), Built(o, Begin([]), Joint(ds) + "+" + tail);
            if r.Err? then b.Err? else b == Built(o, Begin(r.value), tail)
  {
    hide Built, LayersOf, Joint, IsDescription;
    assert Joint(ds) + "+" + tail == Joint(ds) + ("+" + tail);
    LayersBuilt(o, [], ds, "+" + tail);
    var r := LayersOf(o, [], ds);
    if r.Ok? {
      PlusAfter(o, ds[|ds| - 1], r.value, tail);
    }
  }

  /** And after a bracket. */
  lemma AfterBracket(o: Order, ls: seq<Layer>, word: string, tail: string)
    requires IsToken(word)
    ensures var b := Built(o, Begin(ls), word + "(" + tail);
            b.Err? || exists k :: |Fresh(k).data| >= HeaderSize(k) && b == Built(o, AtField(ls, Fresh(k)), tail)
  {
    hide Built, IsToken, KeywordOf;
    assert word + "(" + tail == word + ("(" + tail);
    TokenBuilt(o, Begin(ls), word, "(" + tail);
    var k := KeywordOf(word);
    if k.Some? && |ls| != MAX_LAYER {
      SpecialIsToken(o, Machine(ObraceOrPlus, ls + [Fresh(k.value)], ""), '(', tail);
    }
  }

  /** A setting that is not closed. */
  lemma BrokenSetting(o: Order, ls: seq<Layer>, l: Layer, s: Setting, tail: string)
    requires IsSetting(s) && |l.data| >= HeaderSize(l.kind)
    requires tail in ["", s.name, s.name + "=", s.name + "=" + s.value, s.name + "=" + s.value + ","]
    ensures Built(o, AtField(ls, l), tail).Err?
  {
    hide Built, IsToken, SetLayer;
    var r := SetLayer(o, l, s.name, s.value);
    NotYet(o, AtField(ls, l));
    if tail == s.name {
      NameIsNoBracket(s.name);
      assert s.name + "" == s.name;
      TokenBuilt(o, AtField(ls, l), s.name, "");
      NotYet(o, Machine(GetEqual, ls + [l], s.name));
    } else if tail == s.name + "=" {
      NameIsNoBracket(s.name);
      assert tail + "" == tail;
      NameBuilt(o, ls, l, s.name, "");
      NotYet(o, Machine(GetValue, ls + [l], s.name));
    } else if tail == s.name + "=" + s.value {
      assert tail + "" == tail;
      SettingBuilt(o, ls, l, s, "");
      if r.Ok? {
        NotYet(o, AfterField(ls, r.value));
      }
    } else if tail != "" {
      SettingBuilt(o, ls, l, s, ",");
      if r.Ok? {
        assert "," + "" == ",";
        CommaBuilt(o, ls, r.value, "");
        NotYet(o, AtField(ls, r.value));
      }
    }
  }

  lemma KindOfFresh(k: Kind)
    ensures Fresh(k).kind == k
  {
  }

  /** What is broken off after a plus, a bracket, a name, an equals sign, a value or a comma
      is an error. */
  lemma BrokenOff(o: Order, ds: seq<Description>, word: string, s: Setting, tail: string)
    requires |ds| > 0 && AllDescriptions(ds) && IsToken(word) && IsSetting(s)
    requires tail in ["", s.name, s.name + "=", s.name + "=" + s.value, s.name + "=" + s.value + ","]
    ensures Built(o, Begin([]), "").Err? && Built(o, Begin([]), Joint(ds) + "+").Err?
    ensures Built(o, Begin([]), word + "(" + tail).Err?
    ensures Built(o, Begin([]), Joint(ds) + "+" + (word + "(" + tail)).Err?
  {
    hide Built, LayersOf, Joint, IsDescription, IsToken, SetLayer, Fresh;
    forall ls: seq<Layer>
      ensures Built(o, Begin(ls), "").Err? && Built(o, Begin(ls), word + "(" + tail).Err?
    {
      NotYet(o, Begin(ls));
      AfterBracket(o, ls, word, tail);
      forall k | |Fresh(k).data| >= HeaderSize(k)
        ensures Built(o, AtField(ls, Fresh(k)), tail).Err?
      {
        KindOfFresh(k);
        BrokenSetting(o, ls, Fresh(k), s, tail);
      }
    }
    AfterPlus(o, ds, "");
    assert Joint(ds) + "+" + "" == Joint(ds) + "+";
    AfterPlus(o, ds, word + "(" + tail);
  }

  lemma WrongToken(o: Order, m: Machine, c: char, rest: string)
    requires Special(c) && Step(o, m, [c]).Err?
    ensures Built(o, m, [c] + rest).Err?
  {
    hide Step;
    SpecialIsToken(o, m, c, rest);
  }

  lemma NoKeyword(c: char)
    ensures KindCalled([c]) == None
  {
  }

  lemma NoNumber(c: char)
    requires Special(c) && c != '+'
    ensures Atou([c]) == 0
  {
    assert [c] == "" + ("" + [c]);
    AtouNothing("", "", [c]);
  }

  /** A special character instead of a keyword or of a size. */
  lemma MissingWord(o: Order, ls: seq<Layer>, l: Layer, c: char, rest: string)
    requires Special(c)
    ensures Built(o, Begin(ls), [c] + rest).Err?
    ensures c != '+' ==> Built(o, Machine(LenOrPlus, ls + [l], ""), [c] + rest).Err?
  {
    hide Built, KeywordOf, KindCalled, Atou;
    NoKeyword(c);
    KeywordsAre([c]);
    WrongToken(o, Begin(ls), c, rest);
    if c != '+' {
      NoNumber(c);
      WrongToken(o, Machine(LenOrPlus, ls + [l], ""), c, rest);
    }
  }

  /** A special character that does not belong where it stands: after a keyword, a name, a
      value or a size. */
  lemma WrongCharacter(o: Order, ls: seq<Layer>, l: Layer, word: string, s: Setting, c: char, rest: string)
    requires Special(c) && IsToken(word) && IsSetting(s) && |l.data| >= HeaderSize(l.kind)
    ensures c != '(' && c != '+' ==> Built(o, Begin(ls), word + ([c] + rest)).Err?
    ensures c != '=' ==> Built(o, AtField(ls, l), s.name + ([c] + rest)).Err?
    ensures c != ',' && c != ')' ==> Built(o, AtField(ls, l), s.name + "=" + s.value + ([c] + rest)).Err?
    ensures c != '+' ==> Built(o, Machine(LenOrPlus, ls + [l], ""), word + ([c] + rest)).Err?
  {
    hide Built, SetLayer, IsToken, Fresh, KeywordOf, Resized;
    NameIsNoBracket(s.name);
    NameIsNoBracket(word);
    TokenBuilt(o, Begin(ls), word, [c] + rest);
    TokenBuilt(o, AtField(ls, l), s.name, [c] + rest);
    TokenBuilt(o, Machine(LenOrPlus, ls + [l], ""), word, [c] + rest);
    SettingBuilt(o, ls, l, s, [c] + rest);
    if c != '(' && c != '+' && Step(o, Begin(ls), word).Ok? {
      WrongToken(o, Step(o, Begin(ls), word).value, c, rest);
    }
    if c != '=' {
      WrongToken(o, Machine(GetEqual, ls + [l], s.name), c, rest);
    }
    if c != ',' && c != ')' && SetLayer(o, l, s.name, s.value).Ok? {
      WrongToken(o, AfterField(ls, SetLayer(o, l, s.name, s.value).value), c, rest);
    }
    if c != '+' && Step(o, Machine(LenOrPlus, ls + [l], ""), word).Ok? {
      WrongToken(o, Step(o, Machine(LenOrPlus, ls + [l], ""), word).value, c, rest);
    }
  }

  // --- what compiling fills in ---------------------------------------------------------------------

  /** The flags of a layer are those of the names given. */
  lemma {:induction false} FlagsOfSettings(o: Order, l: Layer, ss: seq<Setting>, t: nat)
    requires |l.data| >= HeaderSize(l.kind) && AfterSettings(o, l, ss).Ok?
    ensures t in AfterSettings(o, l, ss).value.flags <==>
            t in l.flags || exists i :: 0 <= i < |ss| && Holds(l.kind, ss[i].name, t)
    decreases |ss|
  {
    hide SetLayer, Effect, Calls, Holds, Resolve, DecodeHex;
    if |ss| > 0 {
      var f := Setter(o, l, ss[0].name, ss[0].value);
      var next := SetLayer(o, l, ss[0].name, ss[0].value).value;
      SettingKeepsSize(o, l, ss[0]);
      FlagsOfSettings(o, next, ss[1..], t);
      assert forall i | 0 < i < |ss| :: ss[i] == ss[1..][i - 1];
      assert (exists i :: 0 <= i < |ss| && Holds(l.kind, ss[i].name, t)) <==>
             Holds(l.kind, ss[0].name, t) || exists i :: 0 <= i < |ss[1..]| && Holds(l.kind, ss[1..][i].name, t);
    }
  }

  /** The description names the field. */
  predicate Names(d: Description, name: string) {
    d.settings.Some? && exists i :: 0 <= i < |d.settings.value| && Is(d.settings.value[i].name, name)
  }

  /** Which flags a built layer has. */
  lemma FlagsOfLayer(o: Order, d: Description, l: Layer)
    requires LayerOf(o, d) == Ok(l)
    ensures KindCalled(d.keyword) == Some(l.kind)
    ensures l.kind == Ip ==>
              && (TAKE_IP_VERSION in l.flags <==> Names(d, "ver")) && (TAKE_IP_HDRLEN in l.flags <==> Names(d, "ihl"))
              && (TAKE_IP_TOTLEN in l.flags <==> Names(d, "totlen"))
              && (TAKE_IP_PROTOCOL in l.flags <==> Names(d, "proto"))
              && (TAKE_IP_CKSUM in l.flags <==> Names(d, "cksum"))
    ensures l.kind == Udp ==>
              (TAKE_UDP_LEN in l.flags <==> Names(d, "len")) && (TAKE_UDP_CKSUM in l.flags <==> Names(d, "cksum"))
    ensures l.kind == Tcp ==>
              (TAKE_TCP_HDRLEN in l.flags <==> Names(d, "off")) && (TAKE_TCP_CKSUM in l.flags <==> Names(d, "cksum"))
  {
    hide AfterSettings, KindCalled, Is, Atou;
    var k := KindCalled(d.keyword).value;
    var ss := if d.settings.Some? then d.settings.value else [];
    forall t: nat
      ensures t in l.flags <==> exists i :: 0 <= i < |ss| && Holds(k, ss[i].name, t)
    {
      FlagsOfSettings(o, Layer(k, Zeros(HeaderSize(k)), {}), ss, t);
    }
  }

  lemma {:induction false} LayerAt(o: Order, done: seq<Layer>, ds: seq<Description>, ls: seq<Layer>, j: nat)
    requires LayersOf(o, done, ds) == Ok(ls)
    ensures |ls| == |done| + |ds| && (j < |done| ==> ls[j] == done[j])
    ensures |done| <= j < |ls| ==> LayerOf(o, ds[j - |done|]) == Ok(ls[j])
    decreases |ds|
  {
    hide LayerOf;
    if |ds| > 0 {
      var l := LayerOf(o, ds[0]).value;
      LayerAt(o, done + [l], ds[1..], ls, j);
      assert |done| <= j < |done| + 1 ==> (done + [l])[j] == l;
    }
  }

  /** The kinds that are described, so that no IP options stand between headers. */
  lemma KindsOf(o: Order, ds: seq<Description>, ls: seq<Layer>)
    requires LayersOf(o, [], ds) == Ok(ls)
    ensures |ls| == |ds| && forall j | 0 <= j < |ls| :: ls[j].kind in [Ip, Udp, Tcp, Data]
  {
    hide LayersOf, LayerOf, KindCalled;
    LayerAt(o, [], ds, ls, 0);
    forall j | 0 <= j < |ls|
      ensures ls[j].kind in [Ip, Udp, Tcp, Data]
    {
      LayerAt(o, [], ds, ls, j);
      FlagsOfLayer(o, ds[j], ls[j]);
      KnownKinds(ds[j].keyword);
    }
  }

  /** What compiling makes of a described layer: everything that the description does not
      name is filled in, and everything else stays as described. */
  ghost predicate Filled(d: Description, was: seq<Byte>, r: seq<Layer>, j: nat)
    requires j < |r|
  {
    var h, q := r[j].data, Bytes(r[j..]);
    match r[j].kind
    case Ip =>
      && |h| >= 20 && SameBut(was, h, {0, 2, 3, 9, 10, 11})
      && h[0] / 16 == (if Names(d, "ver") then was[0] / 16 else 4)
      && h[0] % 16 == (if Names(d, "ihl") then was[0] % 16 else 5)
      && (if Names(d, "totlen") then h[2] == was[2] && h[3] == was[3] else Number(h[2], h[3]) == |q| % 65536)
      && h[9] == (if Names(d, "proto") then was[9] else if Names(d, "ihl") then 4
                  else if j + 1 < |r| then Protocol4(r[j + 1].kind) else 255)
      && (if Names(d, "cksum") then h[10] == was[10] && h[11] == was[11] else Sums([], h[..20], 10))
    case Udp =>
      && |h| >= 8 && |q| >= 8 && SameBut(was, h, {4, 5, 6, 7})
      && (if Names(d, "len") then h[4] == was[4] && h[5] == was[5] else Number(h[4], h[5]) == |q| % 65536)
      && (if Names(d, "cksum") then h[6] == was[6] && h[7] == was[7]
          else j > 0 && r[j - 1].kind == Ip && |r[j - 1].data| >= 20 &&
               Sums(PseudoBytes4(r[j - 1].data, 17, |q|), q, 6))
    case Tcp =>
      && |h| >= 20 && |q| >= 20 && SameBut(was, h, {12, 16, 17}) && h[12] % 16 == was[12] % 16
      && h[12] / 16 == (if Names(d, "off") then was[12] / 16 else 5)
      && (if Names(d, "cksum") then h[16] == was[16] && h[17] == was[17]
          else j > 0 && r[j - 1].kind == Ip && |r[j - 1].data| >= 20 &&
               Sums(PseudoBytes4(r[j - 1].data, 6, |q|), q, 16))
    case _ => h == was
  }

  predicate Modelled(ls: seq<Layer>) {
    forall i | 0 <= i < |ls| :: ls[i].kind in [Ip, Udp, Tcp, Data]
  }

  /** A checksum that is computed has its IP header right before it. */
  lemma HeaderBefore(ls: seq<Layer>, r: seq<Layer>, j: nat)
    requires WellSized(ls) && Compiled(ls) == Ok(r) && Modelled(ls) && j < |ls| && !KeepsCksum(ls[j])
    requires ls[j].kind == Udp || ls[j].kind == Tcp
    ensures j > 0 && ls[j - 1].kind == Ip
  {
    CompilesIff(ls);
    hide Compiled;
    assert HasParent(ls, j);
    assert forall i | 0 <= i < j :: ls[..j][i].kind != IpOpt;
  }

  lemma NoOptions(r: seq<Layer>, j: nat, k: Kind)
    requires j < |r| && Modelled(r) && k !in [Ip, Udp, Tcp, Data]
    ensures Followed(r, j, j + 1, k) && Bytes(r[j + 1..j + 1]) == []
  {
    assert r[j + 1..j + 1] == [];
  }

  lemma IpFilled(o: Order, d: Description, ls: seq<Layer>, r: seq<Layer>, j: nat)
    requires WellSized(ls) && Compiled(ls) == Ok(r) && |r| == |ls| && Modelled(r) && j < |ls|
    requires LayerOf(o, d) == Ok(ls[j]) && ls[j].kind == Ip
    ensures r[j].kind == Ip && Filled(d, ls[j].data, r, j)
  {
    hide Bytes, Compiled, WellSized, LayerOf, Names, Modelled, Followed, Sums, SameBut, Protocol4;
    FlagsOfLayer(o, d, ls[j]);
    Ip4Keeps(ls, r, j);
    NoOptions(r, j, IpOpt);
    Ip4Fields(ls, r, j, j + 1);
    Ip4Checksum(ls, r, j, j + 1);
    assert r[j].data[..20] + [] == r[j].data[..20];
  }

  lemma BytesFrom(r: seq<Layer>, j: nat)
    requires j < |r|
    ensures |Bytes(r[j..])| >= |r[j].data|
  {
    BytesCons(r, j);
  }

  lemma UpperKind(ls: seq<Layer>, r: seq<Layer>, j: nat)
    requires WellSized(ls) && Compiled(ls) == Ok(r) && j < |ls|
    ensures |r| == |ls| && r[j].kind == ls[j].kind
  {
    hide Compiled, WellSized, SameBut;
    UpperKeeps(ls, r, j);
  }

  lemma UdpFilled(o: Order, d: Description, ls: seq<Layer>, r: seq<Layer>, j: nat)
    requires WellSized(ls) && Compiled(ls) == Ok(r) && |r| == |ls| && Modelled(r) && Modelled(ls) && j < |ls|
    requires LayerOf(o, d) == Ok(ls[j]) && ls[j].kind == Udp
    ensures r[j].kind == Udp && Filled(d, ls[j].data, r, j)
  {
    hide Bytes, Compiled, WellSized, LayerOf, Names, Modelled, Followed, Sums, SameBut, PseudoBytes4, PseudoBytes6;
    FlagsOfLayer(o, d, ls[j]);
    UpperKeeps(ls, r, j);
    UdpLength(ls, r, j);
    BytesFrom(r, j);
    if TAKE_UDP_CKSUM !in ls[j].flags {
      HeaderBefore(ls, r, j);
      UpperKind(ls, r, j - 1);
      UdpChecksum(ls, r, j, j - 1);
    }
  }

  lemma TcpFilled(o: Order, d: Description, ls: seq<Layer>, r: seq<Layer>, j: nat)
    requires WellSized(ls) && Compiled(ls) == Ok(r) && |r| == |ls| && Modelled(r) && Modelled(ls) && j < |ls|
    requires LayerOf(o, d) == Ok(ls[j]) && ls[j].kind == Tcp
    ensures r[j].kind == Tcp && Filled(d, ls[j].data, r, j)
  {
    hide Bytes, Compiled, WellSized, LayerOf, Names, Modelled, Followed, Sums, SameBut, PseudoBytes4, PseudoBytes6;
    FlagsOfLayer(o, d, ls[j]);
    UpperKeeps(ls, r, j);
    NoOptions(r, j, TcpOpt);
    TcpLength(ls, r, j, j + 1);
    BytesFrom(r, j);
    if TAKE_TCP_CKSUM !in ls[j].flags {
      HeaderBefore(ls, r, j);
      UpperKind(ls, r, j - 1);
      TcpChecksum(ls, r, j, j - 1);
    }
  }

  lemma DataFilled(d: Description, ls: seq<Layer>, r: seq<Layer>, j: nat)
    requires WellSized(ls) && Compiled(ls) == Ok(r) && j < |ls| && ls[j].kind == Data
    ensures |r| == |ls| && Filled(d, ls[j].data, r, j)
  {
    hide Compiled, WellSized, SameBut, Bytes, Names;
    UpperKeeps(ls, r, j);
  }

  /** A packet that is described, built and compiled: in every layer exactly the version,
      lengths, protocol and checksum that the description does not name are filled in. */
  lemma OnlyTheRestIsFilledIn(o: Order, ds: seq<Description>, ls: seq<Layer>, r: seq<Layer>, j: nat)
    requires LayersOf(o, [], ds) == Ok(ls) && WellSized(ls) && Compiled(ls) == Ok(r) && j < |ls|
    ensures |r| == |ds| == |ls| && r[j].kind == ls[j].kind && Filled(ds[j], ls[j].data, r, j)
  {
    hide LayersOf, LayerOf, Compiled, WellSized, SameBut, Filled, Bytes;
    KindsOf(o, ds, ls);
    LayerAt(o, [], ds, ls, j);
    forall i | 0 <= i < |ls|
      ensures |r| == |ls| && r[i].kind == ls[i].kind
    {
      UpperKind(ls, r, i);
    }
    if ls[j].kind == Ip {
      IpFilled(o, ds[j], ls, r, j);
    } else if ls[j].kind == Udp {
      UdpFilled(o, ds[j], ls, r, j);
    } else if ls[j].kind == Tcp {
      TcpFilled(o, ds[j], ls, r, j);
    } else {
      DataFilled(ds[j], ls, r, j);
    }
  }
}
