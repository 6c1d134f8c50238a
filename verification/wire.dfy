/**
 * A self-delimiting text encoding for the claims of a token.  It stands in for
 * the JSON-then-base64url form of a JWT: all the model needs of that form is
 * that decoding undoes encoding, which the lemmas here prove field by field.
 *
 *   a natural n   : n copies of '#', then '.'
 *   an integer    : '+' or '-', then its magnitude as a natural
 *   a string      : its length as a natural, then its characters
 *   an optional   : 'N', or 'S' followed by the string
 *   a string list : its length as a natural, then each string
 */
module Wire {
  import opened Wrappers

  function EncNat(n: nat): (s: string)
    ensures |s| == n + 1
  {
    if n == 0 then "." else "#" + EncNat(n - 1)
  }

  /** Reads a natural off the front of `s`, returning it with the rest of `s`. */
  function DecNat(s: string): (r: Option<(nat, string)>)
    ensures r.Some? ==> |r.value.1| < |s|
  {
    if |s| == 0 then None
    else if s[0] == '.' then Some((0, s[1..]))
    else if s[0] == '#' then
      match DecNat(s[1..])
      case None => None
      case Some((n, rest)) => Some((n + 1, rest))
    else None
  }

  lemma {:induction false} DecEncNat(n: nat, rest: string)
    ensures DecNat(EncNat(n) + rest) == Some((n, rest))
  {
    if n == 0 {
      assert (EncNat(0) + rest)[1..] == rest;
    } else {
      var tail := EncNat(n - 1) + rest;
      assert EncNat(n) + rest == "#" + tail;
      assert ("#" + tail)[1..] == tail;
      DecEncNat(n - 1, rest);
    }
  }

  function EncInt(i: int): string {
    if i < 0 then "-" + EncNat(-i) else "+" + EncNat(i)
  }

  function DecInt(s: string): (r: Option<(int, string)>)
    ensures r.Some? ==> |r.value.1| < |s|
  {
    if |s| == 0 then None
    else
      match DecNat(s[1..])
      case None => None
      case Some((n, rest)) =>
        if s[0] == '-' && n > 0 then Some((-(n as int), rest))
        else if s[0] == '+' then Some((n, rest))
        else None
  }

  lemma DecEncInt(i: int, rest: string)
    ensures DecInt(EncInt(i) + rest) == Some((i, rest))
  {
    var m: nat := if i < 0 then -i else i;
    var sign := if i < 0 then '-' else '+';
    assert EncInt(i) + rest == [sign] + (EncNat(m) + rest);
    assert ([sign] + (EncNat(m) + rest))[1..] == EncNat(m) + rest;
    DecEncNat(m, rest);
  }

  function EncStr(x: string): string {
    EncNat(|x|) + x
  }

  function DecStr(s: string): (r: Option<(string, string)>)
    ensures r.Some? ==> |r.value.1| < |s|
  {
    match DecNat(s)
    case None => None
    case Some((n, rest)) =>
      if n <= |rest| then Some((rest[..n], rest[n..])) else None
  }

  lemma DecEncStr(x: string, rest: string)
    ensures DecStr(EncStr(x) + rest) == Some((x, rest))
  {
    assert EncStr(x) + rest == EncNat(|x|) + (x + rest);
    DecEncNat(|x|, x + rest);
    assert (x + rest)[..|x|] == x;
    assert (x + rest)[|x|..] == rest;
  }

  function EncOpt(o: Option<string>): string {
    match o
    case None => "N"
    case Some(x) => "S" + EncStr(x)
  }

  function DecOpt(s: string): (r: Option<(Option<string>, string)>)
    ensures r.Some? ==> |r.value.1| < |s|
  {
    if |s| == 0 then None
    else if s[0] == 'N' then Some((None, s[1..]))
    else if s[0] == 'S' then
      match DecStr(s[1..])
      case None => None
      case Some((x, rest)) => Some((Some(x), rest))
    else None
  }

  lemma DecEncOpt(o: Option<string>, rest: string)
    ensures DecOpt(EncOpt(o) + rest) == Some((o, rest))
  {
    match o
    case None =>
      assert (EncOpt(o) + rest)[1..] == rest;
    case Some(x) =>
      assert EncOpt(o) + rest == "S" + (EncStr(x) + rest);
      assert ("S" + (EncStr(x) + rest))[1..] == EncStr(x) + rest;
      DecEncStr(x, rest);
  }

  function EncItems(xs: seq<string>): string {
    if xs == [] then "" else EncStr(xs[0]) + EncItems(xs[1..])
  }

  /** Reads exactly `k` strings off the front of `s`. */
  function DecItems(k: nat, s: string): (r: Option<(seq<string>, string)>)
    ensures r.Some? ==> |r.value.1| <= |s|
  {
    if k == 0 then Some(([], s))
    else
      match DecStr(s)
      case None => None
      case Some((x, rest)) =>
        match DecItems(k - 1, rest)
        case None => None
        case Some((xs, rest')) => Some(([x] + xs, rest'))
  }

  lemma {:induction false} DecEncItems(xs: seq<string>, rest: string)
    ensures DecItems(|xs|, EncItems(xs) + rest) == Some((xs, rest))
  {
    if xs != [] {
      var tail := EncItems(xs[1..]) + rest;
      assert EncItems(xs) + rest == EncStr(xs[0]) + tail;
      DecEncStr(xs[0], tail);
      DecEncItems(xs[1..], rest);
      assert DecItems(|xs| - 1, tail) == Some((xs[1..], rest));
      assert [xs[0]] + xs[1..] == xs;
    } else {
      assert EncItems(xs) + rest == rest;
    }
  }

  function EncList(xs: seq<string>): string {
    EncNat(|xs|) + EncItems(xs)
  }

  function DecList(s: string): (r: Option<(seq<string>, string)>)
    ensures r.Some? ==> |r.value.1| < |s|
  {
    match DecNat(s)
    case None => None
    case Some((n, rest)) => DecItems(n, rest)
  }

  lemma DecEncList(xs: seq<string>, rest: string)
    ensures DecList(EncList(xs) + rest) == Some((xs, rest))
  {
    assert EncList(xs) + rest == EncNat(|xs|) + (EncItems(xs) + rest);
    DecEncNat(|xs|, EncItems(xs) + rest);
    DecEncItems(xs, rest);
  }
}
