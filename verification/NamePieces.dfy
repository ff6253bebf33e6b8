/** Paths that are not canonical: doubled slashes, more than 16 components, components of 64 bytes
    or more, and every form of the text behind an '@'. */
module NamePieces {
  import opened Bytes
  import opened Fnv
  import opened Names
  import opened NamePaths

  predicate Clean(c: seq<byte>) { c == [] || CanonicalComponent(c) }

  ghost predicate AllClean(xs: seq<seq<byte>>) { forall i :: 0 <= i < |xs| ==> Clean(xs[i]) }

  function NonEmpty(xs: seq<seq<byte>>): seq<seq<byte>> {
    if xs == [] then [] else (if xs[0] == [] then [] else [xs[0]]) + NonEmpty(xs[1..])
  }

  /** The components read so far and the following ones, as far as the structure has room. */
  function Filled(name: Name, more: seq<seq<byte>>): Name {
    name.(components := Take(name.components + more, 16))
  }

  /** A path and the same path behind a slash are one name. */
  lemma LeadingSlashOptional(path: seq<byte>)
    requires path == [] || path[0] != SLASH
    ensures InitName(path) == InitName([SLASH] + path)
  {
    assert ([SLASH] + path)[1..] == path;
  }

  lemma FilledFull(name: Name, more: seq<seq<byte>>)
    requires |name.components| == 16 || (more == [] && |name.components| <= 16)
    ensures Filled(name, more) == name
  {
    assert more == [] ==> name.components + more == name.components;
    assert (name.components + more)[..|name.components|] == name.components;
  }

  lemma FilledNext(name: Name, c: seq<byte>, more: seq<seq<byte>>)
    ensures Filled(name.(components := name.components + [c]), more) == Filled(name, [c] + more)
  {
    assert name.components + [c] + more == name.components + ([c] + more);
  }

  lemma NonEmptyStep(xs: seq<seq<byte>>)
    requires xs != []
    ensures NonEmpty(xs) == if xs[0] == [] then NonEmpty(xs[1..]) else [xs[0]] + NonEmpty(xs[1..])
  {
  }

  lemma LastPieceRead(x: seq<byte>, name: Name)
    requires Clean(x) && |name.components| < 16 && !name.hasVersion
    ensures InitFrom(x, name) == Init(true, Filled(name, if x == [] then [] else [x]))
  {
    if x == [] {
      InitFromDone([], name);
      FilledFull(name, []);
    } else {
      InitLast(x, None, name);
      assert x + [] == x;
    }
  }

  lemma PieceRead(x: seq<byte>, rest: seq<byte>, name: Name)
    requires Clean(x) && |name.components| < 16
    ensures InitFrom(x + [SLASH] + rest, name)
         == InitFrom(rest, if x == [] then name else name.(components := name.components + [x]))
  {
    if x == [] {
      var s := x + [SLASH] + rest;
      assert s[1..] == rest && s[0] == SLASH;
      InitFromSlash(s, name);
    } else {
      InitField(x, rest, name);
    }
  }

  lemma {:induction false} PiecesRead(xs: seq<seq<byte>>, name: Name)
    requires AllClean(xs) && |name.components| <= 16 && !name.hasVersion
    ensures InitFrom(Join(xs, SLASH), name) == Init(true, Filled(name, NonEmpty(xs)))
  {
    hide InitFrom, Filled, CanonicalComponent, NonEmpty;
    if |name.components| == 16 {
      InitFromDone(Join(xs, SLASH), name);
      FilledFull(name, NonEmpty(xs));
    } else if xs == [] {
      InitFromDone([], name);
      NonEmptyOfNone();
      FilledFull(name, []);
    } else {
      NonEmptyStep(xs);
      NonEmptyOfNone();
      if |xs| == 1 {
        LastPieceRead(xs[0], name);
        assert xs[1..] == [];
        assert [xs[0]] + [] == [xs[0]];
      } else {
        PieceRead(xs[0], Join(xs[1..], SLASH), name);
        FilledNext(name, xs[0], NonEmpty(xs[1..]));
        PiecesRead(xs[1..], if xs[0] == [] then name else name.(components := name.components + [xs[0]]));
      }
    }
  }

  lemma NonEmptyOfNone()
    ensures NonEmpty([]) == []
  {
  }

  /** Empty pieces are skipped, components beyond the sixteenth are dropped, and the hash is that of
      the whole path all the same. */
  lemma PiecesParsed(xs: seq<seq<byte>>)
    requires AllClean(xs)
    ensures var path := [SLASH] + Join(xs, SLASH);
      InitName(path) == Init(true, Name(Take(NonEmpty(xs), 16), Hash(path), 0, false))
  {
    hide InitFrom, AllClean;
    PiecesRead(xs, EMPTY_NAME);
    assert ([SLASH] + Join(xs, SLASH))[1..] == Join(xs, SLASH);
    assert EMPTY_NAME.components + NonEmpty(xs) == NonEmpty(xs);
  }

  // ----- the last component ---------------------------------------------------------

  /** A component behind fewer than 16 canonical ones, read as the end of the path. */
  lemma TailRead(cs: seq<seq<byte>>, s: seq<byte>)
    requires |cs| < 16 && (forall i :: 0 <= i < |cs| ==> CanonicalComponent(cs[i]))
    ensures var path, r := TextOf(cs) + [SLASH] + s, InitFrom(s, Name(cs, 0, 0, false));
      InitName(path) == if r.ok then Init(true, r.name.(hash := Hash(path))) else r
  {
    hide InitFrom, CanonicalComponent, TextOf, Join;
    BodyOf(cs, s);
    if cs != [] {
      InitThrough(cs, s, EMPTY_NAME);
      assert EMPTY_NAME.components + cs == cs;
    }
  }

  lemma BodyOf(cs: seq<seq<byte>>, s: seq<byte>)
    ensures var path := TextOf(cs) + [SLASH] + s;
      Body(path) == (if cs == [] then s else Join(cs, SLASH) + [SLASH] + s) && [SLASH] + Body(path) == path
  {
    hide TextOf, Join, Body;
    NoText();
    if cs == [] {
      BehindSlash(s);
      assert [] + [SLASH] + s == [SLASH] + s;
    } else {
      TextIsJoin(cs);
      BehindSlash(Join(cs, SLASH) + [SLASH] + s);
      Assoc([SLASH] + Join(cs, SLASH), [SLASH], s);
      Assoc([SLASH], Join(cs, SLASH), [SLASH] + s);
      Assoc(Join(cs, SLASH), [SLASH], s);
    }
  }

  lemma NoText()
    ensures TextOf([]) == []
  {
  }

  lemma BehindSlash(s: seq<byte>)
    ensures Body([SLASH] + s) == s
  {
    assert ([SLASH] + s)[1..] == s;
  }

  lemma WholePiece(s: seq<byte>, name: Name)
    requires s != [] && SLASH !in s && |name.components| < 16
    ensures InitFrom(s, name) == match ParseComponent(s, |s|)
                                 case None => Init(false, name)
                                 case Some(c) => Init(true, Append(name, c))
  {
    hide ParseComponent;
    assert s[..|s|] == s;
    IndexOfUnique(s, SLASH, |s|);
    InitFromUnfolds(s, name, |s|);
    if ParseComponent(s, |s|).Some? { InitFromDone([], Append(name, ParseComponent(s, |s|).value)); }
  }

  /** The last component of a path, without an '@', is taken exactly when it has fewer than 64 bytes. */
  lemma LastTakenIff(cs: seq<seq<byte>>, c: seq<byte>)
    requires |cs| < 16 && forall i :: 0 <= i < |cs| ==> CanonicalComponent(cs[i])
    requires c != [] && SLASH !in c && AT !in c
    ensures var path := TextOf(cs) + [SLASH] + c;
      (InitName(path).ok <==> |c| < 64)
      && (|c| < 64 ==> InitName(path).name == Name(cs + [c], Hash(path), 0, false))
  {
    TailRead(cs, c);
    WholePiece(c, Name(cs, 0, 0, false));
    hide InitFrom;
    assert c[..|c|] == c;
    if |c| < 64 { ParsePlainComponent(c, |c|); }
  }

  /** With an '@' it is taken exactly when at least one digit and nothing but digits follow and the
      whole has fewer than 64 bytes; the version is their value modulo 2^64. */
  lemma VersionTakenIff(cs: seq<seq<byte>>, c: seq<byte>, v: seq<byte>)
    requires |cs| < 16 && forall i :: 0 <= i < |cs| ==> CanonicalComponent(cs[i])
    requires SLASH !in c && AT !in c && SLASH !in v
    ensures var path := TextOf(cs) + [SLASH] + (c + [AT] + v);
      (InitName(path).ok <==> |c| + 1 + |v| < 64 && v != [] && AllDigits(v))
      && (InitName(path).ok ==> InitName(path).name == Name(cs + [c], Hash(path), Value(v) % U64, true))
  {
    var s := c + [AT] + v;
    TailRead(cs, s);
    WholePiece(s, Name(cs, 0, 0, false));
    hide InitFrom, Value;
    VersionedPiece(c, v);
    if AllDigits(v) { WrapsAt64(v); }
  }

  lemma VersionedPiece(c: seq<byte>, v: seq<byte>)
    requires AT !in c
    ensures var s := c + [AT] + v;
      ParseComponent(s, |s|) == if |s| < 64 && v != [] && AllDigits(v) then Some(Component(c, DecimalValue(v), true)) else None
  {
    hide AllDigits, DecimalValue;
    var s := c + [AT] + v;
    assert s[..|s|] == s && s[..|c|] == c && s[|c| + 1..] == v && s[|c|] == AT;
    IndexOfUnique(s, AT, |c|);
  }

  /** Rebuilding a name reads a version off each component, and hashes the components as they were. */
  lemma RebuildVersioned(cs: seq<seq<byte>>, c: seq<byte>, v: seq<byte>)
    requires |cs| < 16 && forall i :: 0 <= i < |cs| ==> |cs[i]| < 64 && AT !in cs[i]
    requires AT !in c
    ensures var s := c + [AT] + v;
      (Rebuild(cs + [s]).ok <==> |s| < 64 && v != [] && AllDigits(v))
      && (Rebuild(cs + [s]).ok ==>
            Rebuild(cs + [s]).name == Name(cs + [c], Hash(TextOf(cs + [s])), Value(v) % U64, true))
  {
    var s := c + [AT] + v;
    RebuildFromClean(cs);
    assert (cs + [s])[..|cs|] == cs;
    VersionedPiece(c, v);
    hide Value;
    if AllDigits(v) { WrapsAt64(v); }
  }

  /** A component of 64 bytes or more cannot be rebuilt. */
  lemma RebuildRefuses(cs: seq<seq<byte>>, i: nat)
    requires i < |cs| && |cs[i]| >= 64
    ensures !Rebuild(cs).ok
  {
    assert cs[..i + 1][..i] == cs[..i];
    RebuildFails(cs, if RebuildFrom(cs[..i]).ok then i + 1 else i);
  }
}
