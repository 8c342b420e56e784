/** The parameters that co_request_append_str, _bin, _int and _uint of src/commotion.c put into a request. */
module Requests {
  import opened Options
  import opened Bytes
  import opened Values
  import opened Decoder
  import opened RoundTrip

  /** The constructor chosen by length may itself refuse, and then a NULL element is appended. */
  datatype Appended = Refused | NullElement | Element(v: Value)

  function Built(v: Option<Value>): Appended {
    match v
    case None => NullElement
    case Some(v) => Element(v)
  }

  function AppendStr(s: seq<byte>): Appended {
    if !(|s| < 0xffff_ffff) then Refused
    else if |s| > 0xffff then Built(MakeStr(2, s))
    else if |s| > 0xff then Built(MakeStr(1, s))
    else Built(MakeStr(0, s))
  }

  function AppendBin(s: seq<byte>): Appended {
    if !(|s| < 0xffff_ffff) then Refused
    else if |s| > 0xffff then Built(MakeBin(2, s))
    else if |s| > 0xff then Built(MakeBin(1, s))
    else Built(MakeBin(0, s))
  }

  /** The argument is a C int, so the 64-bit constructor is never chosen. */
  function AppendInt(i: int): Appended
    requires -0x8000_0000 <= i < 0x8000_0000
  {
    if i > 0x7fff || i < -0x8000 then Element(MakeInt(2, i))
    else if i > 0x7f || i < -0x80 then Element(MakeInt(1, i))
    else Element(MakeInt(0, i))
  }

  function AppendUInt(u: nat): Appended
    requires u < 0x1_0000_0000
  {
    if u > 0xffff then Element(MakeUInt(2, u))
    else if u > 0xff then Element(MakeUInt(1, u))
    else Element(MakeUInt(0, u))
  }

  /** What was appended comes back from the wire: it is a value of the codec's domain. */
  lemma StringsAppended(s: seq<byte>)
    ensures AppendStr(s).Refused? <==> |s| >= 0xffff_ffff
    ensures AppendStr(s).NullElement? <==>
      |s| == 0 || |s| == 0xff || |s| == 0xffff || 2147483623 < |s| < 0xffff_ffff
    ensures AppendStr(s).Element? ==>
      var v := AppendStr(s).v;
      SimpleEncodable(v) && v.Str? && |v.text| == |s| && (s[|s| - 1] == 0 ==> v.text == s)
      && (v.len > 0 ==> |s| >= Pow256(Width(v.len - 1)))
  {
    Powers();
    if s != [] { assert s == s[..|s| - 1] + [s[|s| - 1]]; }
  }

  lemma BinariesAppended(s: seq<byte>)
    ensures AppendBin(s).Refused? <==> |s| >= 0xffff_ffff
    ensures AppendBin(s).NullElement? <==>
      |s| == 0xff || |s| == 0xffff || 2147483623 < |s| < 0xffff_ffff
    ensures AppendBin(s).Element? ==>
      var v := AppendBin(s).v;
      SimpleEncodable(v) && v.Bin? && v.data == s && (v.len > 0 ==> |s| >= Pow256(Width(v.len - 1)))
  {
    Powers();
  }

  /** Every int gets the narrowest type that holds it. */
  lemma IntegersAppended(i: int)
    requires -0x8000_0000 <= i < 0x8000_0000
    ensures var r := AppendInt(i);
            r.Element? && SimpleEncodable(r.v) && r.v.Int? && r.v.i == i
            && (r.v.log > 0 ==> !SignedFits(i, Width(r.v.log - 1)))
  {
    Powers();
  }

  lemma UnsignedAppended(u: nat)
    requires u < 0x1_0000_0000
    ensures var r := AppendUInt(u);
            r.Element? && SimpleEncodable(r.v) && r.v.UInt? && r.v.u == u
            && (r.v.log > 0 ==> u >= Pow256(Width(r.v.log - 1)))
  {
    Powers();
  }
}
