/** Virtual recipe file names: a real file, a class keyword and a multiconfig in one string. */
module VirtualNames {
  import opened Text

  /** Between "mc:" and the next colon, and behind that colon; `s` has two colons. */
  function AfterColon(s: string): string {
    if From(s, ':') == "" then "" else From(s, ':')[1..]
  }

  lemma HasColon(s: string)
    requires ':' in s
    ensures From(s, ':') != ""
  {
    BeforeFrom(s, ':');
  }

  /** virtualfn2realfn: the file, the class keyword, the multiconfig. */
  function VirtualToReal(virtualfn: string): (string, string, string) {
    var hasMc := StartsWith(virtualfn, "mc:") && |SplitOn(virtualfn, ':')| >= 3;
    var mc := if hasMc then Before(AfterColon(virtualfn), ':') else "";
    var name := if hasMc then AfterColon(AfterColon(virtualfn)) else virtualfn;
    if StartsWith(name, "virtual:") then
      assert name[7] == ':';
      HasColon(name);
      var elems := SplitOn(name, ':');
      (elems[|elems| - 1], JoinOn(elems[1..|elems| - 1], ':'), mc)
    else (name, "", mc)
  }

  /** realfn2virtual */
  function RealToVirtual(realfn: string, cls: string, mc: string): string {
    var name := if cls != "" then "virtual" + ([':'] + cls) + ([':'] + realfn) else realfn;
    if mc != "" then "mc" + ([':'] + mc) + ([':'] + name) else name
  }

  /** variant2virtual */
  function VariantToVirtual(realfn: string, variant: string): string {
    if variant == "" then realfn
    else
      var elems := SplitOn(variant, ':');
      if StartsWith(variant, "mc:") && |elems| >= 3 then
        if elems[2] != "" then
          "mc" + ([':'] + elems[1]) + ([':'] + ("virtual" + ([':'] + JoinOn(elems[2..], ':')) + ([':'] + realfn)))
        else "mc" + ([':'] + elems[1]) + ([':'] + realfn)
      else "virtual" + ([':'] + variant) + ([':'] + realfn)
  }

  predicate NoColon(s: string) {
    ':' !in s
  }

  // ---- one part in front of a colon ----

  lemma ThreeParts(a: string, b: string, c: string)
    requires NoColon(a)
    ensures a + ([':'] + b) + ([':'] + c) == a + [':'] + (b + [':'] + c)
  {
  }

  lemma VirtualSplits(cls: string, realfn: string)
    requires NoColon(realfn)
    ensures SplitOn("virtual" + ([':'] + cls) + ([':'] + realfn), ':') == ["virtual"] + (SplitOn(cls, ':') + [realfn])
  {
    ThreeParts("virtual", cls, realfn);
    SplitFirst("virtual", ':', cls + [':'] + realfn);
    SplitAppend(cls, ':', realfn);
    SplitOne(realfn, ':');
  }

  lemma ClassComesBack(cls: string, realfn: string)
    requires NoColon(realfn)
    ensures var elems := SplitOn("virtual" + ([':'] + cls) + ([':'] + realfn), ':');
            |elems| >= 2 && elems[|elems| - 1] == realfn && JoinOn(elems[1..|elems| - 1], ':') == cls
  {
    VirtualSplits(cls, realfn);
    var elems := ["virtual"] + (SplitOn(cls, ':') + [realfn]);
    assert elems[1..|elems| - 1] == SplitOn(cls, ':');
    JoinSplit(cls, ':');
  }

  lemma ColonFree(s: string, p: string)
    requires NoColon(s) && ':' in p
    ensures !StartsWith(s, p)
  {
  }

  lemma McSplits(mc: string, name: string)
    requires NoColon(mc)
    ensures var v := "mc" + ([':'] + mc) + ([':'] + name);
            && StartsWith(v, "mc:") && |SplitOn(v, ':')| >= 3
            && Before(AfterColon(v), ':') == mc && AfterColon(AfterColon(v)) == name
  {
    var v := "mc" + ([':'] + mc) + ([':'] + name);
    ThreeParts("mc", mc, name);
    SplitFirst("mc", ':', mc + [':'] + name);
    SplitFirst(mc, ':', name);
    SplitAt("mc", ':', mc + [':'] + name);
    assert AfterColon(v) == mc + [':'] + name;
    SplitAt(mc, ':', name);
    assert ([':'] + name)[1..] == name;
    assert v[..3] == "mc:";
  }

  lemma NameComesBack(realfn: string, cls: string)
    requires NoColon(realfn)
    ensures var name := RealToVirtual(realfn, cls, "");
            && !StartsWith(name, "mc:")
            && (StartsWith(name, "virtual:") <==> cls != "")
  {
    var name := RealToVirtual(realfn, cls, "");
    if cls == "" {
      ColonFree(realfn, "mc:");
      ColonFree(realfn, "virtual:");
    } else {
      assert name[0] == 'v' && name[..8] == "virtual:";
    }
  }

  /** The three parts of a virtual name come back from it; the class may contain colons. */
  lemma VirtualNameRoundTrip(realfn: string, cls: string, mc: string)
    requires NoColon(realfn) && NoColon(mc)
    ensures VirtualToReal(RealToVirtual(realfn, cls, mc)) == (realfn, cls, mc)
  {
    var name := RealToVirtual(realfn, cls, "");
    NameComesBack(realfn, cls);
    if cls != "" { ClassComesBack(cls, realfn); }
    if mc != "" { McSplits(mc, name); }
  }

  /** So different files, classes or multiconfigs have different names. */
  lemma VirtualNamesDiffer(f: string, c: string, m: string, g: string, d: string, n: string)
    requires NoColon(f) && NoColon(m) && NoColon(g) && NoColon(n)
    ensures RealToVirtual(f, c, m) == RealToVirtual(g, d, n) <==> f == g && c == d && m == n
  {
    VirtualNameRoundTrip(f, c, m);
    VirtualNameRoundTrip(g, d, n);
  }

  /** A variant "mc:M:V" is named like class V of multiconfig M exactly if V does not start with a
      colon: a leading colon loses the whole of V. */
  lemma McVariantAgreesIff(realfn: string, mc: string, v: string)
    requires NoColon(realfn) && NoColon(mc) && mc != ""
    ensures (VariantToVirtual(realfn, "mc" + ([':'] + mc) + ([':'] + v)) == RealToVirtual(realfn, v, mc))
            <==> (v == "" || v[0] != ':')
  {
    var variant := "mc" + ([':'] + mc) + ([':'] + v);
    McSplits(mc, v);
    ThreeParts("mc", mc, v);
    SplitFirst("mc", ':', mc + [':'] + v);
    SplitFirst(mc, ':', v);
    var elems := SplitOn(variant, ':');
    assert elems == ["mc", mc] + SplitOn(v, ':');
    assert elems[2..] == SplitOn(v, ':');
    JoinSplit(v, ':');
    FirstPartEmptyIff(v);
    VirtualNamesDiffer(realfn, v, mc, realfn, "", mc);
  }

  lemma FirstPartEmptyIff(v: string)
    ensures SplitOn(v, ':')[0] == "" <==> (v == "" || v[0] == ':')
  {
    BeforeFrom(v, ':');
  }

  // ---- the names of variants ----

  predicate IsMc(variant: string) {
    StartsWith(variant, "mc:") && |SplitOn(variant, ':')| >= 3
  }

  /** M and V of a variant mc:M:V. */
  function McOf(variant: string): string {
    Before(AfterColon(variant), ':')
  }

  function ClassOf(variant: string): string {
    AfterColon(AfterColon(variant))
  }

  /** A V that starts with a colon is lost. */
  function KeptClass(variant: string): string {
    if ClassOf(variant) != "" && ClassOf(variant)[0] == ':' then "" else ClassOf(variant)
  }

  /** What of a variant its name keeps. */
  function Kept(variant: string): string {
    if IsMc(variant) then "mc" + ([':'] + McOf(variant)) + ([':'] + KeptClass(variant)) else variant
  }

  lemma AroundColon(s: string)
    requires |SplitOn(s, ':')| >= 2
    ensures s == Before(s, ':') + [':'] + AfterColon(s) && |SplitOn(AfterColon(s), ':')| == |SplitOn(s, ':')| - 1
  {
    BeforeFrom(s, ':');
  }

  lemma McParts(variant: string)
    requires IsMc(variant)
    ensures variant == "mc" + ([':'] + McOf(variant)) + ([':'] + ClassOf(variant)) && NoColon(McOf(variant))
  {
    AroundColon(variant);
    AroundColon(AfterColon(variant));
    ThreeParts("mc", McOf(variant), ClassOf(variant));
    assert variant == "mc" + [':'] + variant[3..];
    SplitAt("mc", ':', variant[3..]);
  }

  lemma McVariantName(realfn: string, variant: string)
    requires NoColon(realfn) && IsMc(variant)
    ensures VariantToVirtual(realfn, variant)
         == "mc" + ([':'] + McOf(variant)) + ([':'] + RealToVirtual(realfn, KeptClass(variant), ""))
  {
    var mc, v := McOf(variant), ClassOf(variant);
    McParts(variant);
    ThreeParts("mc", mc, v);
    SplitFirst("mc", ':', mc + [':'] + v);
    SplitFirst(mc, ':', v);
    var elems := SplitOn(variant, ':');
    assert elems == ["mc", mc] + SplitOn(v, ':') && elems[2..] == SplitOn(v, ':');
    JoinSplit(v, ':');
    FirstPartEmptyIff(v);
  }

  /** A variant that is not of the form mc:M:V is named like a class. */
  lemma PlainVariantAgrees(realfn: string, variant: string)
    requires !IsMc(variant)
    ensures VariantToVirtual(realfn, variant) == RealToVirtual(realfn, variant, "")
  {
  }

  /** Two variants have the same name iff they are of the same file and the same but for a lost V. */
  lemma VariantNamesIff(f: string, c: string, g: string, d: string)
    requires NoColon(f) && NoColon(g)
    ensures VariantToVirtual(f, c) == VariantToVirtual(g, d) <==> f == g && Kept(c) == Kept(d)
  {
    if IsMc(c) && IsMc(d) {
      McVariantsIff(f, c, g, d);
    } else if IsMc(c) {
      McIsNotPlain(f, c, g, d);
    } else if IsMc(d) {
      McIsNotPlain(g, d, f, c);
    } else {
      PlainVariantAgrees(f, c);
      PlainVariantAgrees(g, d);
      VirtualNamesDiffer(f, c, "", g, d, "");
    }
  }

  lemma McVariantsIff(f: string, c: string, g: string, d: string)
    requires NoColon(f) && NoColon(g) && IsMc(c) && IsMc(d)
    ensures VariantToVirtual(f, c) == VariantToVirtual(g, d) <==> f == g && Kept(c) == Kept(d)
  {
    McVariantName(f, c);
    McVariantName(g, d);
    McParts(c);
    McParts(d);
    TailsIff(McOf(c), RealToVirtual(f, KeptClass(c), ""), McOf(d), RealToVirtual(g, KeptClass(d), ""));
    TailsIff(McOf(c), KeptClass(c), McOf(d), KeptClass(d));
    VirtualNamesDiffer(f, KeptClass(c), "", g, KeptClass(d), "");
  }

  lemma TailsIff(mc: string, x: string, other: string, y: string)
    requires NoColon(mc) && NoColon(other)
    ensures "mc" + ([':'] + mc) + ([':'] + x) == "mc" + ([':'] + other) + ([':'] + y) <==> mc == other && x == y
  {
    McSplits(mc, x);
    McSplits(other, y);
  }

  lemma McIsNotPlain(f: string, c: string, g: string, d: string)
    requires NoColon(f) && NoColon(g) && IsMc(c) && !IsMc(d)
    ensures VariantToVirtual(f, c) != VariantToVirtual(g, d) && Kept(c) != Kept(d)
  {
    McVariantName(f, c);
    McParts(c);
    PlainVariantAgrees(g, d);
    NameComesBack(g, d);
    McSplits(McOf(c), RealToVirtual(f, KeptClass(c), ""));
    McSplits(McOf(c), KeptClass(c));
  }

  lemma VariantsDiffer(f: string, c: string, g: string, d: string)
    requires NoColon(f) && NoColon(g) && f != g
    ensures VariantToVirtual(f, c) != VariantToVirtual(g, d)
  {
    VariantNamesIff(f, c, g, d);
  }

  // ---- any name ----

  lemma JoinAround(h: string, m: seq<string>, l: string)
    requires m != []
    ensures JoinOn([h] + m + [l], ':') == h + [':'] + JoinOn(m, ':') + [':'] + l
    decreases |m|
  {
    assert ([h] + m + [l])[1..] == m + [l];
    JoinLast(m, l);
    assert h + [':'] + (JoinOn(m, ':') + [':'] + l) == h + [':'] + JoinOn(m, ':') + [':'] + l;
  }

  lemma {:induction false} JoinLast(m: seq<string>, l: string)
    requires m != []
    ensures JoinOn(m + [l], ':') == JoinOn(m, ':') + [':'] + l
    decreases |m|
  {
    if |m| == 1 {
      assert (m + [l])[1..] == [l];
    } else {
      assert (m + [l])[1..] == m[1..] + [l];
      JoinLast(m[1..], l);
      LastSum(m[0], JoinOn(m[1..], ':'), l);
    }
  }

  lemma LastSum(x: string, y: string, l: string)
    ensures x + [':'] + (y + [':'] + l) == x + [':'] + y + [':'] + l
  {
  }

  lemma {:induction false} LastIsShorter(parts: seq<string>)
    requires |parts| > 1
    ensures |parts[|parts| - 1]| < |JoinOn(parts, ':')|
    decreases |parts|
  {
    if |parts| == 2 {
      assert parts[1..] == [parts[1]];
    } else {
      LastIsShorter(parts[1..]);
    }
  }

  /** The name behind a multiconfig. */
  function NameOf(v: string): string {
    if IsMc(v) then ClassOf(v) else v
  }

  /** The file and the class of a name without a multiconfig. */
  predicate AreParts(name: string, fn: string, cls: string) {
    if StartsWith(name, "virtual:") then
      var elems := SplitOn(name, ':');
      |elems| > 1 && fn == elems[|elems| - 1] && cls == JoinOn(elems[1..|elems| - 1], ':')
    else fn == name && cls == ""
  }

  lemma VirtualParts(v: string)
    ensures var (fn, cls, mc) := VirtualToReal(v); AreParts(NameOf(v), fn, cls) && mc == if IsMc(v) then McOf(v) else ""
  {
    if StartsWith(NameOf(v), "virtual:") {
      assert NameOf(v)[7] == ':';
      HasColon(NameOf(v));
    }
  }

  lemma NameBackIff(name: string, fn: string, cls: string)
    requires AreParts(name, fn, cls)
    ensures RealToVirtual(fn, cls, "") == name <==> (StartsWith(name, "virtual:") ==> cls != "")
    ensures |RealToVirtual(fn, cls, "")| <= |name|
  {
    if StartsWith(name, "virtual:") {
      var elems := SplitOn(name, ':');
      JoinSplit(name, ':');
      LastIsShorter(elems);
      if cls != "" {
        FirstIsVirtual(name);
        assert elems == ["virtual"] + elems[1..|elems| - 1] + [fn];
        JoinAround("virtual", elems[1..|elems| - 1], fn);
        ThreeParts("virtual", cls, fn);
        assert name == "virtual" + ([':'] + cls) + ([':'] + fn);
      }
    }
  }

  lemma FirstIsVirtual(name: string)
    requires StartsWith(name, "virtual:")
    ensures SplitOn(name, ':')[0] == "virtual"
  {
    assert name == "virtual" + [':'] + name[8..];
    SplitFirst("virtual", ':', name[8..]);
  }

  /** Taking a name apart and putting it together again gives it back, unless its multiconfig or its
      class is there and empty. */
  lemma BackAgainIff(v: string)
    ensures var (fn, cls, mc) := VirtualToReal(v);
            RealToVirtual(fn, cls, mc) == v
            <==> (IsMc(v) ==> mc != "") && (StartsWith(NameOf(v), "virtual:") ==> cls != "")
  {
    var (fn, cls, mc) := VirtualToReal(v);
    VirtualParts(v);
    NameBackIff(NameOf(v), fn, cls);
    if IsMc(v) { McBackIff(v, RealToVirtual(fn, cls, ""), fn, cls, mc); }
  }

  lemma McBackIff(v: string, name: string, fn: string, cls: string, mc: string)
    requires IsMc(v) && mc == McOf(v) && name == RealToVirtual(fn, cls, "") && |name| <= |ClassOf(v)|
    ensures RealToVirtual(fn, cls, mc) == v <==> mc != "" && name == ClassOf(v)
  {
    McParts(v);
    McName(fn, cls, mc);
    if mc != "" { TailsIff(mc, name, mc, ClassOf(v)); }
  }

  lemma McName(fn: string, cls: string, mc: string)
    ensures RealToVirtual(fn, cls, mc)
         == if mc == "" then RealToVirtual(fn, cls, "") else "mc" + ([':'] + mc) + ([':'] + RealToVirtual(fn, cls, ""))
  {
  }
}
