/**
  The client version the server announces (whatsapp-util/src/protobuf/version.rs):
  the `current_version` text "primary.secondary.tertiary" becomes the
  protobuf `AppVersion` the client sends in its login payload.
 */
module Version {
  import opened Wrappers
  import opened Errors
  import opened Bytes
  import opened Decimal
  import Jid
  import opened Seqs

  /** The deserialised version record; only `currentVersion` is read. */
  datatype Version = Version(
    isBroken: bool,
    isBelowSoft: bool,
    hardUpdateTime: int,
    beta: string,
    currentVersion: string)

  /** The three version fields of the protobuf `AppVersion`; a piece that is not a `u32` is left unset. */
  datatype AppVersion = AppVersion(primary: Option<nat>, secondary: Option<nat>, tertiary: Option<nat>)

  /** The number of separators in a string. */
  function Occurrences(s: string, sep: char): nat
    decreases |s|
  {
    if |s| == 0 then 0 else (if s[0] == sep then 1 else 0) + Occurrences(s[1..], sep)
  }

  /**
    `s.splitn(n, sep)`: at most `n` pieces, split at the first `n - 1`
    separators; the last piece keeps any further separators. An empty string
    is one empty piece.
   */
  function SplitN(s: string, n: nat, sep: char): (r: seq<string>)
    ensures n == 0 <==> |r| == 0
    ensures |r| <= n
    decreases n
  {
    if n == 0 then []
    else if n == 1 then [s]
    else
      var i := Jid.Find(s, sep);
      if i == |s| then [s] else [s[..i]] + SplitN(s[i + 1..], n - 1, sep)
  }

  /** The pieces with the separator put back between them. */
  function Join(pieces: seq<string>, sep: char): string
    decreases |pieces|
  {
    if |pieces| == 0 then ""
    else if |pieces| == 1 then pieces[0]
    else pieces[0] + [sep] + Join(pieces[1..], sep)
  }

  /** A string without the separator is one piece. */
  lemma SplitNone(s: string, n: nat, sep: char)
    requires n >= 1 && sep !in s
    ensures SplitN(s, n, sep) == [s]
  {
  }

  /** The first piece ends at the first separator. */
  lemma SplitAround(p: string, q: string, n: nat, sep: char)
    requires n >= 2 && sep !in p
    ensures SplitN(p + [sep] + q, n, sep) == [p] + SplitN(q, n - 1, sep)
  {
    Jid.FindSeparator(p, sep, q);
    AroundSeparator(p, sep, q);
  }

  /** Every piece but the last is free of the separator, and so is the last when there are fewer than `n`. */
  lemma {:induction false} SplitPiecesFree(s: string, n: nat, sep: char)
    ensures forall i :: 0 <= i < |SplitN(s, n, sep)| - 1 ==> sep !in SplitN(s, n, sep)[i]
    ensures 0 < |SplitN(s, n, sep)| < n ==> sep !in SplitN(s, n, sep)[|SplitN(s, n, sep)| - 1]
    decreases n, 1
  {
    if n > 1 && Jid.Find(s, sep) < |s| {
      PiecesFreeAtFirst(s, n, sep);
    } else if n > 1 {
      assert SplitN(s, n, sep) == [s];
    }
  }

  /** The step of `SplitPiecesFree` at the first separator. */
  lemma {:induction false} PiecesFreeAtFirst(s: string, n: nat, sep: char)
    requires n > 1 && Jid.Find(s, sep) < |s|
    ensures forall i :: 0 <= i < |SplitN(s, n, sep)| - 1 ==> sep !in SplitN(s, n, sep)[i]
    ensures 0 < |SplitN(s, n, sep)| < n ==> sep !in SplitN(s, n, sep)[|SplitN(s, n, sep)| - 1]
    decreases n, 0
  {
    var i := Jid.Find(s, sep);
    var rest := SplitN(s[i + 1..], n - 1, sep);
    SplitPiecesFree(s[i + 1..], n - 1, sep);
    FirstSeparator(s, sep);
    SplitAtFirst(s, n, sep);
    PiecesFreeStep(s[..i], rest, SplitN(s, n, sep), n, sep);
  }

  /** With a separator and room for two pieces or more, the first piece ends at the first separator. */
  lemma SplitAtFirst(s: string, n: nat, sep: char)
    requires n > 1 && Jid.Find(s, sep) < |s|
    ensures SplitN(s, n, sep) == [s[..Jid.Find(s, sep)]] + SplitN(s[Jid.Find(s, sep) + 1..], n - 1, sep)
  {
  }

  /** A separator-free first piece before pieces that are free but for the last keeps them so. */
  lemma PiecesFreeStep(first: string, rest: seq<string>, all: seq<string>, n: nat, sep: char)
    requires all == [first] + rest && sep !in first && 1 <= |rest|
    requires forall i :: 0 <= i < |rest| - 1 ==> sep !in rest[i]
    requires |rest| < n - 1 ==> sep !in rest[|rest| - 1]
    ensures forall i :: 0 <= i < |all| - 1 ==> sep !in all[i]
    ensures |all| < n ==> sep !in all[|all| - 1]
  {
    assert forall k :: 0 < k < |all| ==> all[k] == rest[k - 1];
  }

  /** Around the first separator of `s`. */
  lemma FirstSeparator(s: string, sep: char)
    requires Jid.Find(s, sep) < |s|
    ensures s == s[..Jid.Find(s, sep)] + [sep] + s[Jid.Find(s, sep) + 1..]
    ensures sep !in s[..Jid.Find(s, sep)]
  {
    var i := Jid.Find(s, sep);
    assert s == s[..i] + [s[i]] + s[i + 1..];
  }

  lemma JoinCons(p: string, rest: seq<string>, sep: char)
    requires |rest| >= 1
    ensures Join([p] + rest, sep) == p + [sep] + Join(rest, sep)
  {
    assert ([p] + rest)[1..] == rest;
  }

  /** Splitting loses nothing: joining the pieces gives the string back. */
  lemma {:induction false} SplitJoin(s: string, n: nat, sep: char)
    requires n >= 1
    ensures Join(SplitN(s, n, sep), sep) == s
    decreases n
  {
    if n > 1 && Jid.Find(s, sep) < |s| {
      var i := Jid.Find(s, sep);
      var p, q := s[..i], s[i + 1..];
      FirstSeparator(s, sep);
      SplitAround(p, q, n, sep);
      SplitJoin(q, n - 1, sep);
      JoinCons(p, SplitN(q, n - 1, sep), sep);
    }
  }

  lemma {:induction false} OccurrencesAround(p: string, q: string, sep: char)
    requires sep !in p
    ensures Occurrences(p + [sep] + q, sep) == Occurrences(q, sep) + 1
    decreases |p|
  {
    if |p| == 0 {
      assert p + [sep] + q == [sep] + q;
      assert ([sep] + q)[1..] == q;
    } else {
      assert (p + [sep] + q)[1..] == p[1..] + [sep] + q;
      OccurrencesAround(p[1..], q, sep);
    }
  }

  /** The number of pieces: one more than the separators, but never more than `n`. */
  lemma {:induction false} SplitCount(s: string, n: nat, sep: char)
    requires n >= 1
    ensures |SplitN(s, n, sep)| == Min(Occurrences(s, sep) + 1, n)
    decreases n
  {
    if n > 1 {
      if Jid.Find(s, sep) < |s| {
        var q := s[Jid.Find(s, sep) + 1..];
        assert |SplitN(s, n, sep)| == 1 + |SplitN(q, n - 1, sep)|;
        OccurrencesAtFirst(s, sep);
        SplitCount(q, n - 1, sep);
      } else {
        OccurrencesNone(s, sep);
      }
    }
  }

  function Min(a: nat, b: nat): nat {
    if a < b then a else b
  }

  /** The separators of `s` are the first one and those after it. */
  lemma OccurrencesAtFirst(s: string, sep: char)
    requires Jid.Find(s, sep) < |s|
    ensures Occurrences(s, sep) == Occurrences(s[Jid.Find(s, sep) + 1..], sep) + 1
  {
    var i := Jid.Find(s, sep);
    FirstSeparator(s, sep);
    OccurrencesAround(s[..i], s[i + 1..], sep);
  }

  lemma {:induction false} OccurrencesNone(s: string, sep: char)
    requires sep !in s
    ensures Occurrences(s, sep) == 0
    decreases |s|
  {
    if |s| > 0 {
      OccurrencesNone(s[1..], sep);
    }
  }

  /**
    `parse(version)`: `current_version` split at its first two dots; fewer than
    three pieces is `None`, otherwise each piece is parsed as a `u32` and a
    piece that does not parse is left unset.
   */
  function Parse(v: Version): (r: Option<AppVersion>)
    ensures r.Some? <==> |SplitN(v.currentVersion, 3, '.')| == 3
    ensures r.Some? ==> r.value.primary == ParseU32(SplitN(v.currentVersion, 3, '.')[0])
    ensures r.Some? ==> r.value.secondary == ParseU32(SplitN(v.currentVersion, 3, '.')[1])
    ensures r.Some? ==> r.value.tertiary == ParseU32(SplitN(v.currentVersion, 3, '.')[2])
  {
    var pieces := SplitN(v.currentVersion, 3, '.');
    if |pieces| < 3 then None
    else Some(AppVersion(ParseU32(pieces[0]), ParseU32(pieces[1]), ParseU32(pieces[2])))
  }

  /** `try_into()`: a version without two dots is `IntoError("Malformed version")`. */
  function TryInto(v: Version): (r: Result<AppVersion>)
    ensures r.Ok? <==> Occurrences(v.currentVersion, '.') >= 2
    ensures r.Ok? ==> Parse(v) == Some(r.value)
    ensures r.Err? ==> r.error == IntoError("Malformed version")
  {
    ParseIffTwoDots(v);
    match Parse(v)
    case None => Err(IntoError("Malformed version"))
    case Some(app) => Ok(app)
  }

  /** A version text parses exactly when it holds at least two dots. */
  lemma ParseIffTwoDots(v: Version)
    ensures Parse(v).Some? <==> Occurrences(v.currentVersion, '.') >= 2
  {
    SplitCount(v.currentVersion, 3, '.');
    ThreeOfMin(|SplitN(v.currentVersion, 3, '.')|, Occurrences(v.currentVersion, '.'));
  }

  /** At most three pieces, one more than the dots: three pieces exactly when there are two dots or more. */
  lemma ThreeOfMin(pieces: nat, dots: nat)
    requires pieces == Min(dots + 1, 3)
    ensures pieces == 3 <==> dots >= 2
  {
  }

  lemma NoDotInDigits(s: string)
    requires AllDigits(s)
    ensures '.' !in s
  {
  }

  /** The text of three `u32` numbers joined by dots parses back to the three numbers. */
  lemma FormatThenParse(v: Version, a: nat, b: nat, c: nat)
    requires a <= U32_MAX && b <= U32_MAX && c <= U32_MAX
    requires v.currentVersion == NatToString(a) + "." + NatToString(b) + "." + NatToString(c)
    ensures Parse(v) == Some(AppVersion(Some(a), Some(b), Some(c)))
  {
    var x, y, z := NatToString(a), NatToString(b), NatToString(c);
    NoDotInDigits(x);
    NoDotInDigits(y);
    NoDotInDigits(z);
    ParseNatToString(a);
    ParseNatToString(b);
    ParseNatToString(c);
    ThreePieces(v.currentVersion, x, y, z);
  }

  /** Pieces without dots, joined by dots, split back into those pieces. */
  lemma ThreePieces(s: string, x: string, y: string, z: string)
    requires '.' !in x && '.' !in y
    requires s == x + "." + y + "." + z
    ensures SplitN(s, 3, '.') == [x, y, z]
  {
    var tail := y + "." + z;
    assert s == x + ['.'] + tail;
    TwoPieces(tail, y, z);
    SplitAround(x, tail, 3, '.');
    assert [x] + [y, z] == [x, y, z];
  }

  /** A piece without a dot, a dot, and the rest split into two pieces. */
  lemma TwoPieces(s: string, y: string, z: string)
    requires '.' !in y && s == y + "." + z
    ensures SplitN(s, 2, '.') == [y, z]
  {
    assert s == y + ['.'] + z;
    SplitAround(y, z, 2, '.');
    assert SplitN(z, 1, '.') == [z];
    assert [y] + [z] == [y, z];
  }

  /**
    A fourth component stays in the last piece, so the tertiary field is unset
    ("2.2212.7.1" gives 2, 2212 and nothing), while the first two still parse.
   */
  lemma FourComponents(v: Version, a: nat, b: nat, c: nat, d: nat)
    requires a <= U32_MAX && b <= U32_MAX
    requires v.currentVersion == NatToString(a) + "." + NatToString(b) + "." + NatToString(c) + "." + NatToString(d)
    ensures Parse(v) == Some(AppVersion(Some(a), Some(b), None))
  {
    var x, y := NatToString(a), NatToString(b);
    var z := NatToString(c) + "." + NatToString(d);
    NoDotInDigits(x);
    NoDotInDigits(y);
    ParseNatToString(a);
    ParseNatToString(b);
    LastPieceKeepsDots(x, y, NatToString(c), NatToString(d));
    ThreePieces(v.currentVersion, x, y, z);
    DottedNotU32(NatToString(c), NatToString(d));
  }

  /** Digits followed by a dot are not a `u32`. */
  lemma DottedNotU32(x: string, y: string)
    requires |x| > 0 && AllDigits(x)
    ensures ParseU32(x + "." + y).None?
  {
    var z := x + "." + y;
    assert z[0] == x[0] && z[|x|] == '.';
  }

  lemma LastPieceKeepsDots(x: string, y: string, c: string, d: string)
    ensures x + "." + y + "." + c + "." + d == x + "." + y + "." + (c + "." + d)
  {
    Assoc2(x + "." + y + "." + c, ".", d);
    Assoc3(x + "." + y + ".", c, ".", d);
  }
}
