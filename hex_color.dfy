/**
 * The colour parser `PostItApp.hexToRgb` of the post-it board (src/app.ts).
 *
 * It runs the regular expression `^#?([a-f\d]{2})([a-f\d]{2})([a-f\d]{2})$`
 * (flag `u` only, so matching is case-sensitive) on the colour string of a
 * post, reads each captured pair with `parseInt(_, 16)` and builds a colour
 * with alpha 1; a string that does not match yields `null`, here `None`.
 */
module HexColor {
  import opened Wrappers
  import opened HexDigits

  /** The three capture groups of a successful match. */
  datatype Captures = Captures(red: seq<char>, green: seq<char>, blue: seq<char>)

  /**
   * The colour built on a match. `red`, `green` and `blue` are the integers
   * that `hexToRgb` divides by 255 to get its channel components; `alpha` is
   * the alpha component itself, which `hexToRgb` always sets to 1.
   */
  datatype Rgba = Rgba(red: nat, green: nat, blue: nat, alpha: nat)

  /** One group `([a-f\d]{2})` tried at position `i`: the two characters it captures, if they are digits. */
  function MatchGroup(s: seq<char>, i: nat): (g: Option<seq<char>>)
    ensures g.Some? <==> i + 2 <= |s| && IsHexDigit(s[i]) && IsHexDigit(s[i + 1])
    ensures g.Some? ==> |g.value| == 2 && AllHexDigits(g.value) && g.value == s[i..i + 2]
  {
    if i + 2 <= |s| && IsHexDigit(s[i]) && IsHexDigit(s[i + 1]) then Some(s[i..i + 2]) else None
  }

  /**
   * The three groups followed by `$`, starting at position `start`: they
   * match exactly when the rest of the input is six digits of the class, and
   * they capture its consecutive pairs.
   */
  function MatchFrom(s: seq<char>, start: nat): (m: Option<Captures>)
    ensures m.Some? <==> start + 6 == |s| && AllHexDigits(s[start..])
    ensures m.Some? ==> m == Some(Captures(s[start..start + 2], s[start + 2..start + 4], s[start + 4..start + 6]))
  {
    var r := MatchGroup(s, start);
    var g := MatchGroup(s, start + 2);
    var b := MatchGroup(s, start + 4);
    if r.Some? && g.Some? && b.Some? && start + 6 == |s| then Some(Captures(r.value, g.value, b.value))
    else None
  }

  /**
   * `RegExp.prototype.exec` for the whole pattern: `^` anchors at 0, the
   * greedy `#?` first consumes a leading `#` and, should the rest then fail,
   * backtracks to consume nothing.
   */
  function Exec(s: seq<char>): (m: Option<Captures>)
    ensures m.Some? ==> |m.value.red| == |m.value.green| == |m.value.blue| == 2
    ensures m.Some? ==> AllHexDigits(m.value.red) && AllHexDigits(m.value.green) && AllHexDigits(m.value.blue)
  {
    if |s| > 0 && s[0] == '#' && MatchFrom(s, 1).Some? then MatchFrom(s, 1) else MatchFrom(s, 0)
  }

  /** The accepted inputs, stated without the matcher: an optional `#` and then exactly six characters of `0-9a-f`. */
  predicate Accepts(s: seq<char>)
  {
    || (|s| == 6 && AllHexDigits(s))
    || (|s| == 7 && s[0] == '#' && AllHexDigits(s[1..]))
  }

  /** Where the six digits start in an accepted input. */
  function DigitsStart(s: seq<char>): nat
  {
    if |s| > 0 && s[0] == '#' then 1 else 0
  }

  /** `Accepts` read as: after the optional `#`, the rest is exactly six digits of the class. */
  lemma AcceptsShape(s: seq<char>)
    ensures Accepts(s) <==> |s| == DigitsStart(s) + 6 && AllHexDigits(s[DigitsStart(s)..])
  {
  }

  /** The match succeeds exactly on the accepted inputs, capturing the consecutive digit pairs. */
  lemma ExecAccepts(s: seq<char>)
    ensures Exec(s).Some? <==> Accepts(s)
    ensures Accepts(s) ==>
      var k := DigitsStart(s);
      Exec(s) == Some(Captures(s[k..k + 2], s[k + 2..k + 4], s[k + 4..k + 6]))
  {
  }

  /**
   * `hexToRgb`: the colour of a colour string, or `None` where `hexToRgb`
   * returns `null`.
   */
  function HexToRgb(hex: seq<char>): (c: Option<Rgba>)
    ensures c.Some? <==> Accepts(hex)
    ensures c.Some? ==> c.value.alpha == 1
    ensures c.Some? ==> c.value.red < 256 && c.value.green < 256 && c.value.blue < 256
  {
    ExecAccepts(hex);
    match Exec(hex)
    case None => None
    case Some(m) => Some(Rgba(ParseHex(m.red), ParseHex(m.green), ParseHex(m.blue), 1))
  }

  /** The pair captured at position `i` reads as the value of its two digits. */
  lemma PairAt(s: seq<char>, i: nat)
    requires i + 2 <= |s| && IsHexDigit(s[i]) && IsHexDigit(s[i + 1])
    ensures ParseHex(s[i..i + 2]) == PairValue(s[i], s[i + 1])
  {
    assert s[i..i + 2] == [s[i], s[i + 1]];
    ParsePair(s[i], s[i + 1]);
  }

  /** Red comes from hex digits 1-2, green from 3-4, blue from 5-6, each read in base 16. */
  lemma ChannelMapping(s: seq<char>)
    requires Accepts(s)
    ensures var k := DigitsStart(s);
      && k + 6 == |s|
      && (forall i :: k <= i < |s| ==> IsHexDigit(s[i]))
      && HexToRgb(s) == Some(Rgba(PairValue(s[k], s[k + 1]), PairValue(s[k + 2], s[k + 3]),
                                  PairValue(s[k + 4], s[k + 5]), 1))
  {
    var k := DigitsStart(s);
    ExecAccepts(s);
    if k == 1 {
      forall i | 1 <= i < 7 ensures IsHexDigit(s[i]) {
        assert s[1..][i - 1] == s[i];
      }
    }
    PairAt(s, k);
    PairAt(s, k + 2);
    PairAt(s, k + 4);
  }

  /** An accepted input is six characters long, or seven with the leading `#`. */
  lemma AcceptedLength(s: seq<char>)
    requires HexToRgb(s).Some?
    ensures |s| == 6 || |s| == 7
    ensures |s| == 7 <==> s[0] == '#'
  {
  }

  /** The leading `#` is optional: with or without it, six digits give the same colour. */
  lemma HashOptional(t: seq<char>)
    requires |t| == 6 && AllHexDigits(t)
    ensures HexToRgb(t).Some?
    ensures HexToRgb(['#'] + t) == HexToRgb(t)
  {
    ChannelMapping(t);
    var s := ['#'] + t;
    assert s[1..] == t;
    ChannelMapping(s);
  }

  /**
   * Matching is case-sensitive: a character other than a lower-case digit
   * anywhere in the input, bar a `#` at its very start, makes the parser
   * return `None`. Upper-case `A`-`F` is such a character.
   */
  lemma RejectsForeignCharacter(s: seq<char>, i: nat)
    requires i < |s| && !IsHexDigit(s[i]) && !(i == 0 && s[i] == '#')
    ensures HexToRgb(s) == None
  {
  }

  lemma UppercaseRejected(s: seq<char>, i: nat)
    requires i < |s| && 'A' <= s[i] <= 'F'
    ensures HexToRgb(s) == None
  {
  }

  lemma UppercaseExample()
    ensures HexToRgb("#FF0000") == None
    ensures HexToRgb("#ff0000") == Some(Rgba(255, 0, 0, 1))
  {
    UppercaseRejected("#FF0000", 1);
    ChannelMapping("#ff0000");
  }

  /**
   * The components `hexToRgb` hands to `MRE.Color4`: a channel divided by
   * 255, here as an exact rational rather than a double.
   */
  function Component(channel: nat): (x: real)
    requires channel < 256
    ensures 0.0 <= x <= 1.0
    ensures x == 1.0 <==> channel == 255
  {
    channel as real / 255.0
  }

  /** The colour string of three channels: six lower-case digits, optionally after `#`. */
  function ToHex(red: nat, green: nat, blue: nat, withHash: bool): (s: seq<char>)
    requires red < 256 && green < 256 && blue < 256
    ensures |s| == if withHash then 7 else 6
  {
    (if withHash then "#" else "") + FormatHex(red, 2) + FormatHex(green, 2) + FormatHex(blue, 2)
  }

  /** A string cut into a prefix and three pairs, and the same pieces joined again. */
  lemma ThreePairs(s: seq<char>, k: nat)
    requires k + 6 == |s|
    ensures s == s[..k] + s[k..k + 2] + s[k + 2..k + 4] + s[k + 4..k + 6]
    ensures s[k..] == s[k..k + 2] + s[k + 2..k + 4] + s[k + 4..k + 6]
  {
  }

  /** Where the three formatted channels stand in a colour string built by `ToHex`. */
  lemma ToHexLayout(red: nat, green: nat, blue: nat, withHash: bool)
    requires red < 256 && green < 256 && blue < 256
    ensures var s := ToHex(red, green, blue, withHash);
      var k := DigitsStart(s);
      && k == (if withHash then 1 else 0)
      && Accepts(s)
      && s[k..k + 2] == FormatHex(red, 2)
      && s[k + 2..k + 4] == FormatHex(green, 2)
      && s[k + 4..k + 6] == FormatHex(blue, 2)
  {
    var s := ToHex(red, green, blue, withHash);
    var r, g, b := FormatHex(red, 2), FormatHex(green, 2), FormatHex(blue, 2);
    var p: seq<char> := if withHash then "#" else "";
    var k := |p|;
    assert s == p + r + g + b;
    assert s[..k] == p;
    assert s[k..k + 2] == r && s[k + 2..k + 4] == g && s[k + 4..k + 6] == b;
    ThreePairs(s, k);
    ConcatHexDigits(r, g);
    ConcatHexDigits(r + g, b);
    assert AllHexDigits(s[k..]);
    assert DigitsStart(s) == k;
  }

  /** Formatting three channels, with or without `#`, and parsing the result gives them back. */
  lemma {:induction false} FormatThenParse(red: nat, green: nat, blue: nat, withHash: bool)
    requires red < 256 && green < 256 && blue < 256
    ensures HexToRgb(ToHex(red, green, blue, withHash)) == Some(Rgba(red, green, blue, 1))
  {
    var s := ToHex(red, green, blue, withHash);
    ToHexLayout(red, green, blue, withHash);
    ExecAccepts(s);
    ParseFormat(red, 2);
    ParseFormat(green, 2);
    ParseFormat(blue, 2);
  }

  /** Parsing then formatting gives the input back: each colour has exactly one accepted spelling per choice of `#`. */
  lemma {:induction false} ParseThenFormat(s: seq<char>)
    requires Accepts(s)
    ensures var c := HexToRgb(s).value;
      ToHex(c.red, c.green, c.blue, |s| == 7) == s
  {
    var k := DigitsStart(s);
    ExecAccepts(s);
    var r, g, b := s[k..k + 2], s[k + 2..k + 4], s[k + 4..k + 6];
    assert Exec(s) == Some(Captures(r, g, b));
    var c := HexToRgb(s).value;
    assert c.red == ParseHex(r) && c.green == ParseHex(g) && c.blue == ParseHex(b);
    FormatParse(r);
    FormatParse(g);
    FormatParse(b);
    ThreePairs(s, k);
    assert s[..k] == if k == 1 then "#" else "";
  }
}
