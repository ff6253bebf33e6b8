/** Which paths parsing and printing give back unchanged. */
module NamePaths {
  import opened Bytes
  import opened Names
  import opened Fnv

  /** The number a numeral denotes, without wrap-around. */
  function Value(d: seq<byte>): nat
    requires AllDigits(d)
  {
    if d == [] then 0
    else
      assert d[|d| - 1] in d;
      10 * Value(d[..|d| - 1]) + (d[|d| - 1] - DIGIT_0)
  }

  /** A numeral without leading zeros that fits 64 bits. */
  predicate MinimalDecimal(d: seq<byte>) {
    d != [] && AllDigits(d) && (d[0] == DIGIT_0 ==> |d| == 1) && Value(d) < U64
  }

  /** A last component: its text, or a text, possibly empty, with a minimal "@version". */
  predicate LastComponent(s: seq<byte>) {
    var at := IndexOf(s, AT);
    0 < |s| < MAX_COMPONENT && (at < |s| ==> MinimalDecimal(s[at + 1..]))
  }

  /** What follows a path's first slash: at most `room` components, all canonical but the last. */
  predicate WellCut(rest: seq<byte>, room: nat)
    decreases room
  {
    var k := IndexOf(rest, SLASH);
    room > 0 && if k == |rest| then LastComponent(rest)
                else CanonicalComponent(rest[..k]) && WellCut(rest[k + 1..], room - 1)
  }

  /** The empty path, or a slash and at most 16 well cut components. */
  predicate Restorable(path: seq<byte>) {
    path == [] || (path[0] == SLASH && WellCut(path[1..], MAX_COMPONENTS))
  }

  // ----- numerals -------------------------------------------------------------------

  lemma LastDigit(d: seq<byte>)
    requires d != [] && AllDigits(d)
    ensures IsDigit(d[|d| - 1]) && AllDigits(d[..|d| - 1])
    ensures Value(d) == 10 * Value(d[..|d| - 1]) + (d[|d| - 1] - DIGIT_0)
  {
    assert d[|d| - 1] in d;
  }

  lemma LastRead(d: seq<byte>)
    requires d != [] && AllDigits(d)
    ensures IsDigit(d[|d| - 1]) && AllDigits(d[..|d| - 1])
    ensures DecimalValue(d) == (DecimalValue(d[..|d| - 1]) * 10 + (d[|d| - 1] - DIGIT_0)) % U64
  {
    assert d[|d| - 1] in d;
  }

  lemma {:induction false} ValueOfDigits(n: nat)
    ensures Value(Digits(n)) == n && (Digits(n)[0] == DIGIT_0 ==> |Digits(n)| == 1)
    ensures n > 0 ==> Digits(n)[0] != DIGIT_0
  {
    var d := Digits(n);
    if n >= 10 {
      assert d[..|d| - 1] == Digits(n / 10);
      ValueOfDigits(n / 10);
    } else {
      assert d[..0] == [];
    }
  }

  lemma {:induction false} WrapsAt64(d: seq<byte>)
    requires AllDigits(d)
    ensures DecimalValue(d) == Value(d) % U64
  {
    if d != [] {
      hide Value, DecimalValue, IsDigit;
      LastDigit(d);
      LastRead(d);
      WrapsAt64(d[..|d| - 1]);
      WrapStep(Value(d[..|d| - 1]), d[|d| - 1] - DIGIT_0);
    }
  }

  lemma WrapStep(v: nat, x: nat)
    ensures ((v % U64) * 10 + x) % U64 == (10 * v + x) % U64
  {
    var q := v / U64;
    assert 10 * v + x == (v % U64) * 10 + x + U64 * (10 * q);
    Unwrap((v % U64) * 10 + x, 10 * q);
  }

  lemma {:induction false} Unwrap(x: nat, q: nat)
    ensures (x + U64 * q) % U64 == x % U64
  {
    if q > 0 {
      Unwrap(x, q - 1);
      var y := x + U64 * (q - 1);
      assert x + U64 * q == y + U64;
    }
  }

  lemma DigitsStep(v: nat, x: nat)
    requires x < 10
    ensures Digits(x) == [DIGIT_0 + x]
    ensures v > 0 ==> Digits(10 * v + x) == Digits(v) + [DIGIT_0 + x]
  {
  }

  lemma OneDigit(d: seq<byte>)
    requires |d| == 1 && AllDigits(d)
    ensures Value(d) == d[0] - DIGIT_0 < 10
  {
    LastDigit(d);
    assert Value(d[..0]) == 0;
  }

  lemma {:induction false} DigitsOfValue(d: seq<byte>)
    requires d != [] && AllDigits(d) && (d[0] == DIGIT_0 ==> |d| == 1)
    ensures Digits(Value(d)) == d
    ensures d[0] != DIGIT_0 ==> Value(d) > 0
  {
    hide Digits, Value, AllDigits;
    var front, x := d[..|d| - 1], d[|d| - 1];
    assert d == front + [x];
    LastDigit(d);
    if |d| == 1 {
      OneDigit(d);
      DigitsStep(0, x - DIGIT_0);
    } else {
      DigitsOfValue(front);
      DigitsStep(Value(front), x - DIGIT_0);
    }
  }

  /** A version prints back as it was written if and only if it was written minimally. */
  lemma VersionRestored(d: seq<byte>)
    requires d != [] && AllDigits(d)
    ensures Digits(DecimalValue(d)) == d <==> MinimalDecimal(d)
  {
    hide Digits, DecimalValue, Value;
    WrapsAt64(d);
    ValueOfDigits(DecimalValue(d));
    if MinimalDecimal(d) { DigitsOfValue(d); }
  }

  lemma {:induction false} DigitsNoLonger(n: nat, d: seq<byte>)
    requires d != [] && AllDigits(d) && n <= Value(d)
    ensures |Digits(n)| <= |d|
  {
    LastDigit(d);
    if |d| == 1 { OneDigit(d); }
    if n >= 10 { DigitsNoLonger(n / 10, d[..|d| - 1]); }
  }

  lemma VersionNoLonger(d: seq<byte>)
    requires d != [] && AllDigits(d)
    ensures |Digits(DecimalValue(d))| <= |d|
  {
    WrapsAt64(d);
    hide AllDigits, Digits;
    DigitsNoLonger(DecimalValue(d), d);
  }

  // ----- one component --------------------------------------------------------------

  /** The text of what was read before, a slash, and `rest`. */
  function Target(cs: seq<seq<byte>>, rest: seq<byte>): seq<byte> { TextOf(cs) + [SLASH] + rest }

  function Next(name: Name, c: seq<byte>): Name { Append(name, Component(c, 0, false)) }

  /** Reading a component that another one follows. */
  lemma StepOn(rest: seq<byte>, name: Name, k: nat)
    requires 0 < k == IndexOf(rest, SLASH) < |rest| && |name.components| < MAX_COMPONENTS
    ensures var r := InitFrom(rest, name);
      if k < MAX_COMPONENT && AT !in rest[..k] then r == InitFrom(rest[k + 1..], Next(name, rest[..k])) else !r.ok
  {
    InitFromUnfolds(rest, name, k);
    hide InitFrom, AllDigits;
    if k < MAX_COMPONENT {
      if AT in rest[..k] {
        var at := IndexOf(rest[..k], AT);
        AtFound(rest[..k]);
        SlashRefused(rest, k, at);
      } else {
        ParsePlainComponent(rest, k);
      }
    }
  }

  lemma AtFound(s: seq<byte>)
    requires AT in s
    ensures IndexOf(s, AT) < |s|
  {
    assert s[..|s|] == s;
  }

  lemma SlashRefused(rest: seq<byte>, k: nat, at: nat)
    requires k < |rest| && rest[k] == SLASH && at == IndexOf(rest[..k], AT) < k
    ensures ParseComponent(rest, k) == None
  {
    assert rest[at + 1..][k - at - 1] == SLASH;
    assert SLASH in rest[at + 1..];
  }

  /** Reading the last component. */
  lemma StepLast(rest: seq<byte>, name: Name)
    requires rest != [] && IndexOf(rest, SLASH) == |rest| && |name.components| < MAX_COMPONENTS
    ensures var r, at := InitFrom(rest, name), IndexOf(rest, AT);
      if |rest| >= MAX_COMPONENT then !r.ok
      else if at == |rest| then r == Init(true, Next(name, rest))
      else if at + 1 < |rest| && AllDigits(rest[at + 1..])
      then r == Init(true, Append(name, Component(rest[..at], DecimalValue(rest[at + 1..]), true)))
      else !r.ok
  {
    InitFromUnfolds(rest, name, |rest|);
    assert rest[..|rest|] == rest;
    hide InitFrom, AllDigits;
    if |rest| < MAX_COMPONENT {
      var at := IndexOf(rest, AT);
      match ParseComponent(rest, |rest|) {
        case Some(c) => InitFromDone([], Append(name, c));
        case None =>
      }
    }
  }

  lemma NextText(name: Name, c: seq<byte>, rest: seq<byte>)
    requires !name.hasVersion
    ensures Target(Next(name, c).components, rest) == Target(name.components, c + [SLASH] + rest)
    ensures NameText(Next(name, c)) == Target(name.components, c) && !Next(name, c).hasVersion
  {
    TextSnoc(name.components, c);
  }

  lemma VersionedText(name: Name, c: seq<byte>, v: u64)
    ensures NameText(Append(name, Component(c, v, true))) == Target(name.components, c + [AT] + Digits(v))
  {
    hide Digits;
    TextSnoc(name.components, c);
  }

  lemma Halves(rest: seq<byte>, k: nat)
    requires k < |rest|
    ensures rest[..k] + [rest[k]] + rest[k + 1..] == rest
  {
  }

  // ----- the whole path -------------------------------------------------------------

  lemma TargetLonger(cs: seq<seq<byte>>, a: seq<byte>, b: seq<byte>)
    ensures |Target(cs, a)| - |a| == |Target(cs, b)| - |b|
    ensures Target(cs, a) == Target(cs, b) ==> a == b
  {
    if Target(cs, a) == Target(cs, b) {
      assert Target(cs, a)[|TextOf(cs)| + 1..] == a && Target(cs, b)[|TextOf(cs)| + 1..] == b;
    }
  }

  /** Printing never gives more than was read. */
  lemma {:induction false} PrintedBound(rest: seq<byte>, name: Name)
    requires InitFrom(rest, name).ok && !name.hasVersion
    ensures |NameText(InitFrom(rest, name).name)| <= |Target(name.components, rest)|
    decreases |rest|
  {
    hide Append, AllDigits, InitFrom, Digits, ParseComponent, NameText, TextOf;
    if rest == [] || |name.components| >= MAX_COMPONENTS {
      InitFromDone(rest, name);
      PlainText(name);
    } else {
      var k := IndexOf(rest, SLASH);
      if k == 0 {
        InitFromSlash(rest, name);
        PrintedBound(rest[1..], name);
        TargetLonger(name.components, rest, rest[1..]);
      } else if k < |rest| {
        StepOn(rest, name, k);
        NextText(name, rest[..k], rest[k + 1..]);
        Halves(rest, k);
        PrintedBound(rest[k + 1..], Next(name, rest[..k]));
      } else {
        StepLast(rest, name);
        LastBound(rest, name);
      }
    }
  }

  lemma PlainText(name: Name)
    requires !name.hasVersion
    ensures NameText(name) == TextOf(name.components)
  {
  }

  lemma LastBound(rest: seq<byte>, name: Name)
    requires rest != [] && !name.hasVersion
    ensures NameText(Next(name, rest)) == Target(name.components, rest)
    ensures var at := IndexOf(rest, AT);
      at + 1 < |rest| && AllDigits(rest[at + 1..]) ==>
        var text := NameText(Append(name, Component(rest[..at], DecimalValue(rest[at + 1..]), true)));
        |text| <= |Target(name.components, rest)|
        && (text == Target(name.components, rest) <==> MinimalDecimal(rest[at + 1..]))
  {
    hide Digits, MinimalDecimal, NameText, DecimalValue;
    NextText(name, rest, []);
    var at := IndexOf(rest, AT);
    if at + 1 < |rest| && AllDigits(rest[at + 1..]) {
      var d := rest[at + 1..];
      VersionNoLonger(d);
      VersionRestored(d);
      VersionedText(name, rest[..at], DecimalValue(d));
      Halves(rest, at);
      var other := rest[..at] + [AT] + Digits(DecimalValue(d));
      TargetLonger(name.components, other, rest);
      assert other == rest ==> Digits(DecimalValue(d)) == d by {
        assert other[at + 1..] == Digits(DecimalValue(d));
      }
    }
  }

  lemma {:induction false} RestoredFrom(rest: seq<byte>, name: Name)
    requires 0 !in rest && !name.hasVersion && |name.components| <= MAX_COMPONENTS
    ensures var r := InitFrom(rest, name);
      r.ok && NameText(r.name) == Target(name.components, rest) <==> WellCut(rest, MAX_COMPONENTS - |name.components|)
    decreases |rest|
  {
    hide Append, AllDigits, InitFrom, Digits, ParseComponent, NameText, TextOf, MinimalDecimal;
    if rest == [] || |name.components| >= MAX_COMPONENTS {
      InitFromDone(rest, name);
      PlainText(name);
    } else {
      var k := IndexOf(rest, SLASH);
      if k == 0 {
        InitFromSlash(rest, name);
        if InitFrom(rest[1..], name).ok { PrintedBound(rest[1..], name); }
        TargetLonger(name.components, rest, rest[1..]);
      } else if k < |rest| {
        StepOn(rest, name, k);
        NextText(name, rest[..k], rest[k + 1..]);
        Halves(rest, k);
        NextCount(name, rest[..k]);
        RestoredFrom(rest[k + 1..], Next(name, rest[..k]));
      } else {
        StepLast(rest, name);
        LastBound(rest, name);
        LastDigits(rest);
      }
    }
  }

  lemma NextCount(name: Name, c: seq<byte>)
    ensures |Next(name, c).components| == |name.components| + 1
  {
  }

  lemma LastDigits(rest: seq<byte>)
    ensures var at := IndexOf(rest, AT);
      at < |rest| && MinimalDecimal(rest[at + 1..]) ==> at + 1 < |rest| && AllDigits(rest[at + 1..])
  {
  }

  lemma TextStart(n: Name)
    ensures NameText(n) == [] || NameText(n)[0] == SLASH
  {
    TextOfStart(n.components);
  }

  lemma {:induction false} TextOfStart(cs: seq<seq<byte>>)
    ensures cs != [] ==> TextOf(cs) != [] && TextOf(cs)[0] == SLASH
  {
    if cs != [] { TextOfStart(cs[..|cs| - 1]); }
  }

  /** Parsing a path and printing the name gives the path back if and only if it is empty or a slash
      and 1 to 16 components: canonical ones, of which the last may end in a minimal "@version" that
      keeps it under 64 bytes, and may be empty before it. */
  lemma PrintsBackIff(path: seq<byte>)
    requires 0 !in path
    ensures InitName(path).ok && NameText(InitName(path).name) == path <==> Restorable(path)
  {
    hide InitFrom, WellCut, NameText;
    var body := Body(path);
    var r := InitFrom(body, EMPTY_NAME);
    RestoredFrom(body, EMPTY_NAME);
    if r.ok {
      TextStart(r.name);
      SameText(r.name, Hash([SLASH] + body));
    }
    if path == [] {
      InitFromDone([], EMPTY_NAME);
      PlainText(EMPTY_NAME);
    } else if path[0] == SLASH {
      assert Target([], body) == path;
    }
  }

  lemma SameText(n: Name, hash: u64)
    ensures NameText(n.(hash := hash)) == NameText(n)
  {
  }
}
