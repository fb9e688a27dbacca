/** Positional numerals, as Python's `format` prints them in octal and decimal with zero padding. */
module Digits {

  datatype Radix = Octal | Decimal {
    function Size(): nat {
      if Octal? then 8 else 10
    }

    function Times(n: nat): nat {
      if Octal? then 8 * n else 10 * n
    }

    function Over(n: nat): nat {
      if Octal? then n / 8 else n / 10
    }

    function Unit(n: nat): nat {
      if Octal? then n % 8 else n % 10
    }
  }

  function Power(radix: Radix, k: nat): nat {
    if k == 0 then 1 else radix.Times(Power(radix, k - 1))
  }

  function Numeral(n: nat, radix: Radix): (ds: seq<nat>)
    ensures |ds| >= 1
    ensures forall i :: 0 <= i < |ds| ==> ds[i] < radix.Size()
  {
    if n < radix.Size() then [n] else Numeral(radix.Over(n), radix) + [radix.Unit(n)]
  }

  function Zeros(k: nat): seq<nat> {
    seq(k, _ => 0)
  }

  // f"{n:0{width}o}" and f"{n:0{width}d}": pads with zeros and never truncates.
  function Padded(n: nat, radix: Radix, width: nat): (ds: seq<nat>)
    ensures |ds| >= width
    ensures forall i :: 0 <= i < |ds| ==> ds[i] < radix.Size()
  {
    var ds := Numeral(n, radix);
    if |ds| >= width then ds else Zeros(width - |ds|) + ds
  }

  function Value(ds: seq<nat>, radix: Radix): nat {
    if ds == [] then 0 else radix.Times(Value(ds[..|ds| - 1], radix)) + ds[|ds| - 1]
  }

  lemma {:induction false} NumeralValue(n: nat, radix: Radix)
    ensures Value(Numeral(n, radix), radix) == n
  {
    if n < radix.Size() {
      ValuePush([], n, radix);
      assert [] + [n] == [n];
    } else {
      NumeralValue(radix.Over(n), radix);
      ValuePush(Numeral(radix.Over(n), radix), radix.Unit(n), radix);
      hide Numeral, Value;
      assert radix.Times(radix.Over(n)) + radix.Unit(n) == n;
    }
  }

  lemma {:induction false} ValuePush(ds: seq<nat>, d: nat, radix: Radix)
    ensures Value([], radix) == 0 && Value(ds + [d], radix) == radix.Times(Value(ds, radix)) + d
  {
    assert (ds + [d])[..|ds|] == ds;
  }

  lemma {:induction false} LeadingZeros(k: nat, ds: seq<nat>, radix: Radix)
    ensures Value(Zeros(k) + ds, radix) == Value(ds, radix)
    decreases |ds|, k
  {
    if ds != [] {
      assert (Zeros(k) + ds)[..k + |ds| - 1] == Zeros(k) + ds[..|ds| - 1];
      LeadingZeros(k, ds[..|ds| - 1], radix);
    } else if k > 0 {
      assert (Zeros(k) + ds)[..k - 1] == Zeros(k - 1) + ds;
      LeadingZeros(k - 1, ds, radix);
    }
  }

  // Reading a padded numeral gives the number back.
  lemma {:induction false} PaddedValue(n: nat, radix: Radix, width: nat)
    ensures Value(Padded(n, radix, width), radix) == n
  {
    NumeralValue(n, radix);
    var ds := Numeral(n, radix);
    if |ds| < width {
      LeadingZeros(width - |ds|, ds, radix);
    }
  }

  lemma {:induction false} NumeralWidth(n: nat, radix: Radix, width: nat)
    requires width >= 1
    ensures |Numeral(n, radix)| <= width <==> n < Power(radix, width)
    decreases width
  {
    if width == 1 {
      assert Power(radix, 1) == radix.Times(Power(radix, 0));
    } else {
      PowerPositive(radix, width - 1);
      if n >= radix.Size() {
        NumeralWidth(radix.Over(n), radix, width - 1);
      }
    }
  }

  lemma {:induction false} PowerPositive(radix: Radix, k: nat)
    ensures Power(radix, k) >= 1
  {
    if k > 0 { PowerPositive(radix, k - 1); }
  }

  // A field of `width` digits holds exactly the numbers below the radix to the width; a larger one spills over.
  lemma {:induction false} PaddedWidth(n: nat, radix: Radix, width: nat)
    requires width >= 1
    ensures |Padded(n, radix, width)| == width <==> n < Power(radix, width)
  {
    NumeralWidth(n, radix, width);
  }

  function Chars(ds: seq<nat>): (s: string)
    requires forall i :: 0 <= i < |ds| ==> ds[i] < 10
  {
    seq(|ds|, i requires 0 <= i < |ds| => '0' + ds[i] as char)
  }

  lemma {:induction false} CharsInjective(a: seq<nat>, b: seq<nat>)
    requires forall i :: 0 <= i < |a| ==> a[i] < 10
    requires forall i :: 0 <= i < |b| ==> b[i] < 10
    requires Chars(a) == Chars(b)
    ensures a == b
  {
    assert |a| == |Chars(a)| && |b| == |Chars(b)|;
    forall i | 0 <= i < |a| ensures a[i] == b[i] {
      assert Chars(a)[i] == '0' + a[i] as char && Chars(b)[i] == '0' + b[i] as char;
    }
  }

  // Printed numerals never collide, whatever their width.
  lemma {:induction false} PaddedInjective(m: nat, n: nat, radix: Radix, width: nat)
    requires Chars(Padded(m, radix, width)) == Chars(Padded(n, radix, width))
    ensures m == n
  {
    CharsInjective(Padded(m, radix, width), Padded(n, radix, width));
    PaddedValue(m, radix, width);
    PaddedValue(n, radix, width);
  }

  // The number a text spells in the given base, digit by digit from the left.
  ghost function Spelled(s: string, base: nat): int {
    if s == "" then 0 else base * Spelled(s[..|s| - 1], base) + (s[|s| - 1] as int - 48)
  }

  lemma {:induction false} CharsSpell(ds: seq<nat>, radix: Radix)
    requires forall k :: 0 <= k < |ds| ==> ds[k] < 10
    ensures Spelled(Chars(ds), if radix == Octal then 8 else 10) == Value(ds, radix)
    decreases |ds|
  {
    if ds != [] {
      var n := |ds| - 1;
      CharsSpell(ds[..n], radix);
      assert Chars(ds)[..n] == Chars(ds[..n]);
    }
  }

  lemma {:induction false} NumeralLeads(n: nat, radix: Radix)
    ensures Numeral(n, radix)[0] == 0 ==> |Numeral(n, radix)| == 1
  {
    if n >= radix.Size() {
      NumeralLeads(radix.Over(n), radix);
      assert Numeral(n, radix)[0] == Numeral(radix.Over(n), radix)[0];
      if |Numeral(radix.Over(n), radix)| == 1 { assert Numeral(radix.Over(n), radix) == [radix.Over(n)]; }
    }
  }

  // A padded numeral spells its number with digits of its base, in the width or without a leading zero.
  lemma {:induction false} PaddedSpells(n: nat, radix: Radix, width: nat)
    ensures var s := Chars(Padded(n, radix, width)); var base := if radix == Octal then 8 else 10;
            && Spelled(s, base) == n && |s| >= width && |s| > 0
            && (forall i :: 0 <= i < |s| ==> '0' as int <= s[i] as int < '0' as int + base)
            && (|s| > width && |s| > 1 ==> s[0] != '0')
  {
    CharsSpell(Padded(n, radix, width), radix);
    PaddedValue(n, radix, width);
    NumeralLeads(n, radix);
  }
}
