// Packet descriptions: the printer of src/rapd.c, the tokenizer and the state machine of
// src/apd.c.
module Apd {
  import opened Checksum
  import opened Ars
  import ArsSplit
  import opened Options
  import opened ApdNumber
  import opened ApdField

  const MAX_TSIZE: nat := 12000  // ARS_MAX_TSIZE
  const MAX_TOKEN: nat := MAX_TSIZE - 1

  // --- printing ---------------------------------------------------------------------------

  /** The layers whose description is modelled, with headers of their full size. */
  predicate IsDescribed(l: Layer) {
    && (l.kind == Ip || l.kind == Udp || l.kind == Tcp || l.kind == Data)
    && (l.kind != Data ==> |l.data| == HeaderSize(l.kind))
  }

  predicate AllDescribed(ls: seq<Layer>) {
    forall i | 0 <= i < |ls| :: IsDescribed(ls[i])
  }

  function Keyword(k: Kind): string {
    if k == Ip then "ip" else if k == Udp then "udp" else if k == Tcp then "tcp" else "data"
  }

  /** `name=value` for the fields of layer l from the i-th on, with commas between. */
  function FieldsText(l: Layer, i: nat): string
    requires IsDescribed(l) && i < |Printed(l.kind)|
    decreases |Printed(l.kind)| - i
  {
    var f := Printed(l.kind)[i];
    Name(f) + "=" + Value(f, l.data) + if i + 1 < |Printed(l.kind)| then "," + FieldsText(l, i + 1) else ""
  }

  /** ars_rapd_ip, _udp, _tcp and, with ARS_OPT_RAPD_HEXDATA, _data, without the plus. */
  function LayerText(l: Layer): string
    requires IsDescribed(l)
  {
    Keyword(l.kind) + "(" + FieldsText(l, 0) + ")"
  }

  /** The descriptions of the layers from j on, each but the first after a plus. */
  function MoreText(ls: seq<Layer>): string
    requires AllDescribed(ls)
  {
    if |ls| == 0 then "" else "+" + LayerText(ls[0]) + MoreText(ls[1..])
  }

  function PacketText(ls: seq<Layer>): string
    requires AllDescribed(ls)
  {
    if |ls| == 0 then "" else LayerText(ls[0]) + MoreText(ls[1..])
  }

  lemma {:induction false} MoreTextSnoc(ls: seq<Layer>, l: Layer)
    requires AllDescribed(ls) && IsDescribed(l)
    ensures AllDescribed(ls + [l]) && MoreText(ls + [l]) == MoreText(ls) + "+" + LayerText(l)
  {
    hide LayerText;
    if |ls| == 0 {
      assert ls + [l] == [l] && [l][1..] == [];
      assert MoreText([l]) == "+" + LayerText(l) + MoreText([l][1..]);
    } else {
      MoreTextSnoc(ls[1..], l);
      assert (ls + [l])[1..] == ls[1..] + [l];
      assert MoreText(ls + [l]) == "+" + LayerText(ls[0]) + (MoreText(ls[1..]) + "+" + LayerText(l));
    }
  }

  /** The loop of ars_rapd_data, two digits a byte. */
  method RapdData(data: seq<Byte>) returns (text: string)
    ensures text == "data(hex=" + HexText(data) + ")+"
  {
    text := "data(hex=";
    var i := 0;
    while i < |data|
      invariant 0 <= i <= |data| && text == "data(hex=" + HexText(data[..i])
    {
      assert data[..i + 1][..i] == data[..i];
      text := text + Hex(data[i], 2);
      i := i + 1;
    }
    assert data[..i] == data;
    text := text + ")+";
  }

  lemma DataText(l: Layer)
    requires l.kind == Data
    ensures LayerText(l) + "+" == "data(hex=" + HexText(l.data) + ")+"
  {
    hide HexText;
    assert FieldsText(l, 0) == "hex" + "=" + HexText(l.data) + "";
    assert LayerText(l) == "data" + "(" + FieldsText(l, 0) + ")";
  }

  lemma NoMoreText()
    ensures MoreText([]) == ""
  {
  }

  lemma OneMoreLayer(ls: seq<Layer>, l: Layer)
    requires AllDescribed(ls) && IsDescribed(l)
    ensures AllDescribed(ls + [l])
    ensures PacketText(ls + [l]) + "+" == (if |ls| == 0 then "" else PacketText(ls) + "+") + (LayerText(l) + "+")
  {
    hide LayerText, MoreText;
    if |ls| == 0 {
      assert ls + [l] == [l] && [l][1..] == [];
      NoMoreText();
      assert PacketText([l]) == LayerText(l) + MoreText([]);
    } else {
      MoreTextSnoc(ls[1..], l);
      assert (ls + [l])[1..] == ls[1..] + [l];
      assert PacketText(ls + [l]) == LayerText(ls[0]) + (MoreText(ls[1..]) + "+" + LayerText(l));
    }
  }

  lemma NoText()
    ensures PacketText([]) == ""
  {
  }

  /** ars_d_from_ars, with a buffer that is large enough: every layer ends in a plus, and
      the last plus is cut off. */
  method FromArs(pkt: Packet) returns (text: string)
    requires AllDescribed(pkt.layers)
    ensures text == PacketText(pkt.layers)
  {
    NoText();
    hide LayerText, PacketText;
    text := "";
    var j := 0;
    while j < |pkt.layers|
      invariant 0 <= j <= |pkt.layers|
      invariant text == if j == 0 then "" else PacketText(pkt.layers[..j]) + "+"
    {
      var l := pkt.layers[j];
      assert pkt.layers[..j + 1] == pkt.layers[..j] + [l];
      OneMoreLayer(pkt.layers[..j], l);
      if l.kind == Data {
        var data := RapdData(l.data);
        DataText(l);
        text := text + data;
      } else {
        text := text + (LayerText(l) + "+");
      }
      j := j + 1;
    }
    assert pkt.layers[..j] == pkt.layers;
    if |text| > 0 {
      text := text[..|text| - 1];
    }
  }

  // --- tokens --------------------------------------------------------------------------------

  predicate Special(c: char) {
    c == '(' || c == ')' || c == ',' || c == '=' || c == '+'
  }

  /** How many plain characters start t, up to n. */
  function PlainRun(t: string, n: nat): (k: nat)
    ensures k <= |t| && k <= n
    ensures forall i | 0 <= i < k :: !Special(t[i])
    ensures k < |t| && k < n ==> Special(t[k])
  {
    if n == 0 || |t| == 0 || Special(t[0]) then 0 else 1 + PlainRun(t[1..], n - 1)
  }

  /** The length of the first token: a special character stands for itself. */
  function TokenLength(t: string): (k: nat)
    requires |t| > 0
    ensures 0 < k <= |t|
  {
    if Special(t[0]) then 1 else PlainRun(t, MAX_TOKEN)
  }

  lemma {:induction false} RunLength(t: string, k: nat, n: nat)
    requires k <= |t| && k <= n && (forall i | 0 <= i < k :: !Special(t[i]))
    requires k < |t| && k < n ==> Special(t[k])
    ensures PlainRun(t, n) == k
    decreases k
  {
    if k > 0 {
      RunLength(t[1..], k - 1, n - 1);
    }
  }

  /** ars_d_parser on the rest t of a description: the token and what follows it. */
  method Parser(t: string) returns (next: string, rest: string)
    requires |t| > 0
    ensures next == t[..TokenLength(t)] && rest == t[TokenLength(t)..]
  {
    var i := 0;
    next := "";
    while true
      invariant 0 <= i <= |t| && i <= MAX_TOKEN && next == t[..i] && (forall j | 0 <= j < i :: !Special(t[j]))
      decreases |t| - i
    {
      if i == MAX_TOKEN || i == |t| {
        RunLength(t, i, MAX_TOKEN);
        return next, t[i..];
      }
      if Special(t[i]) {
        if i == 0 {
          return t[..1], t[1..];
        }
        RunLength(t, i, MAX_TOKEN);
        return next, t[i..];
      }
      next := next + [t[i]];
      i := i + 1;
    }
  }

  // --- the state machine -------------------------------------------------------------------------

  /** ARS_G_* */
  datatype Mode =
    | GetLayer | FieldOrCbrace | GetValue | ObraceOrPlus | Cbrace | CommaOrCbrace | LenOrPlus | GetPlus | GetEqual

  /** The state of ars_d_build. The field name matters only up to its value. */
  datatype Machine = Machine(mode: Mode, layers: seq<Layer>, field: string)

  /** ars_get_keyword_by_name, for the keywords modelled. */
  function KeywordOf(name: string): Option<Kind> {
    if SameWord("ip", name) then Some(Ip)
    else if SameWord("udp", name) then Some(Udp)
    else if SameWord("tcp", name) then Some(Tcp)
    else if SameWord("data", name) then Some(Data)
    else None
  }

  function Last(ls: seq<Layer>): Layer
    requires |ls| > 0
  {
    ls[|ls| - 1]
  }

  function WithLast(ls: seq<Layer>, l: Layer): seq<Layer>
    requires |ls| > 0
  {
    ls[|ls| - 1 := l]
  }

  /** ars_d_setlayer_size */
  function Resized(l: Layer, size: nat): Result<Layer> {
    if size < 1 || size > |l.data| then Err(Invalid) else Ok(l.(data := l.data[..size]))
  }

  function Goto(m: Machine, mode: Mode): Result<Machine> {
    Ok(m.(mode := mode))
  }

  /** What ars_d_build does with one token. */
  function Step(o: Order, m: Machine, tok: string): Result<Machine> {
    match m.mode
    case GetLayer =>
      (match KeywordOf(tok)
       case None => Err(Invalid)
       case Some(k) =>
         if |m.layers| == MAX_LAYER then Err(Invalid)
         else Ok(Machine(ObraceOrPlus, m.layers + [Layer(k, ArsSplit.FreshHeader(k), {})], "")))
    case FieldOrCbrace => if tok == ")" then Goto(m, LenOrPlus) else Ok(m.(field := tok, mode := GetEqual))
    case GetEqual => if tok == "=" then Goto(m, GetValue) else Err(Invalid)
    case GetValue =>
      if |m.layers| == 0 || |Last(m.layers).data| < HeaderSize(Last(m.layers).kind) then Err(Invalid)
      else (match SetLayer(o, Last(m.layers), m.field, tok)
            case Err(e) => Err(e)
            case Ok(l) => Ok(Machine(CommaOrCbrace, WithLast(m.layers, l), "")))
    case CommaOrCbrace =>
      if tok == ")" then Goto(m, LenOrPlus) else if tok == "," then Goto(m, FieldOrCbrace) else Err(Invalid)
    case ObraceOrPlus =>
      if tok == "(" then Goto(m, FieldOrCbrace) else if tok == "+" then Goto(m, GetLayer) else Err(Invalid)
    case Cbrace => if tok == ")" then Goto(m, LenOrPlus) else Err(Invalid)
    case LenOrPlus =>
      if tok == "+" then Goto(m, GetLayer)
      else if |m.layers| == 0 then Err(Invalid)
      else (match Resized(Last(m.layers), Atou(tok))
            case Err(e) => Err(e)
            case Ok(l) => Ok(Machine(GetPlus, WithLast(m.layers, l), "")))
    case GetPlus => if tok == "+" then Goto(m, GetLayer) else Err(Invalid)
  }

  predicate MayEnd(mode: Mode) {
    mode == LenOrPlus || mode == GetPlus || mode == ObraceOrPlus
  }

  /** ars_d_build from a state of the machine. */
  function Built(o: Order, m: Machine, t: string): Result<seq<Layer>>
    decreases |t|
  {
    if |t| == 0 then (if MayEnd(m.mode) then Ok(m.layers) else Err(Invalid))
    else match Step(o, m, t[..TokenLength(t)])
      case Err(e) => Err(e)
      case Ok(next) => Built(o, next, t[TokenLength(t)..])
  }

  function Begin(ls: seq<Layer>): Machine {
    Machine(GetLayer, ls, "")
  }

  /** ars_d_build */
  method Build(o: Order, pkt: Packet, description: string) returns (r: Result<()>)
    requires pkt.layers == []
    modifies pkt`layers
    ensures match Built(o, Begin([]), description)
            case Err(e) => r == Err(e)
            case Ok(ls) => r.Ok? && pkt.layers == ls
  {
    hide Step, TokenLength;
    var t := description;
    var m := Begin([]);
    while |t| > 0
      invariant Built(o, m, t) == Built(o, Begin([]), description) && pkt.layers == m.layers
      decreases |t|
    {
      var next, rest := Parser(t);
      match Step(o, m, next) {
        case Err(e) => return Err(e);
        case Ok(after) => m := after;
      }
      pkt.layers := m.layers;
      t := rest;
    }
    if !MayEnd(m.mode) {
      return Err(Invalid);
    }
    return Ok(());
  }
}
