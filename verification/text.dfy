/** The string primitives of Rust's `str` that the core relies on, restricted
    to ASCII: `trim`, `lines`, `split_once`, `starts_with`, `ends_with`,
    `split_whitespace().next()`, `u64::to_string` and `u64::from_str`. */
module Text {
  import opened Wrappers

  /** The largest value of Rust's `u64`. */
  const U64Max: nat := 0xFFFF_FFFF_FFFF_FFFF

  /** ASCII part of Rust's `char::is_whitespace`: space and U+0009..U+000D. */
  predicate IsSpace(c: char) {
    c == ' ' || ('\t' <= c <= '\r')
  }

  /** Neither the first nor the last character is whitespace. */
  predicate NoEdgeSpace(s: string) {
    s == [] || (!IsSpace(s[0]) && !IsSpace(s[|s| - 1]))
  }

  /** A value that survives being written on one line and trimmed back. */
  predicate Clean(s: string) {
    NoEdgeSpace(s) && '\n' !in s
  }

  predicate StartsWith(s: string, prefix: string) {
    |prefix| <= |s| && s[..|prefix|] == prefix
  }

  predicate EndsWith(s: string, suffix: string) {
    |suffix| <= |s| && s[|s| - |suffix|..] == suffix
  }

  /** Rust's `trim_start`: drop the leading whitespace. */
  function TrimStart(s: string): (r: string)
    ensures |r| <= |s| && r == s[|s| - |r|..]
    ensures r == [] || !IsSpace(r[0])
    ensures forall i :: 0 <= i < |s| - |r| ==> IsSpace(s[i])
  {
    if s != [] && IsSpace(s[0]) then TrimStart(s[1..]) else s
  }

  /** Rust's `trim_end`: drop the trailing whitespace. */
  function TrimEnd(s: string): (r: string)
    ensures |r| <= |s| && r == s[..|r|]
    ensures r == [] || !IsSpace(r[|r| - 1])
    ensures forall i :: |r| <= i < |s| ==> IsSpace(s[i])
  {
    if s != [] && IsSpace(s[|s| - 1]) then TrimEnd(s[..|s| - 1]) else s
  }

  /** Rust's `trim`. */
  function Trim(s: string): (r: string)
    ensures |r| <= |s|
    ensures NoEdgeSpace(r)
    ensures NoEdgeSpace(s) ==> r == s
    ensures '\n' !in s ==> '\n' !in r
  {
    var t := TrimStart(s);
    var r := TrimEnd(t);
    assert '\n' in r ==> '\n' in t;
    assert '\n' in t ==> '\n' in s;
    r
  }

  /** Trimming only removes characters. */
  lemma TrimKeeps(s: string, c: char)
    ensures c in Trim(s) ==> c in s
  {
    var t := TrimStart(s);
    var r := TrimEnd(t);
    if c in r {
      var i :| 0 <= i < |r| && r[i] == c;
      assert t[i] == c;
      assert s[|s| - |t| + i] == c;
    }
  }

  /** Position of the first `c` in `s`, or `|s|` when there is none. */
  function IndexOf(s: string, c: char): (i: nat)
    ensures i <= |s|
    ensures i < |s| ==> s[i] == c
    ensures forall j :: 0 <= j < i ==> s[j] != c
  {
    if s == [] then 0
    else if s[0] == c then 0
    else 1 + IndexOf(s[1..], c)
  }

  /** Rust's `split_once(c)`: the parts before and after the first `c`. */
  function SplitOnce(s: string, c: char): (r: Option<(string, string)>)
    ensures r.Some? <==> c in s
    ensures r.Some? ==> r.value.0 + [c] + r.value.1 == s && c !in r.value.0
  {
    var i := IndexOf(s, c);
    if i == |s| then None
    else
      assert s[..i] + [c] + s[i + 1..] == s;
      Some((s[..i], s[i + 1..]))
  }

  /** Rust's `str::lines`: split at each '\n'; a final '\n' does not open an
      empty last line. A '\r' before the '\n' stays on the line here; every
      caller trims the line, which removes it just as Rust does. */
  function Lines(s: string): (ls: seq<string>)
    ensures forall i :: 0 <= i < |ls| ==> '\n' !in ls[i]
    ensures s == [] <==> ls == []
    decreases |s|
  {
    if s == [] then []
    else
      var i := IndexOf(s, '\n');
      if i == |s| then [s] else [s[..i]] + Lines(s[i + 1..])
  }

  /** Rust's `lines.join("\n")`. */
  function Join(ls: seq<string>): string
  {
    if |ls| == 0 then []
    else if |ls| == 1 then ls[0]
    else ls[0] + "\n" + Join(ls[1..])
  }

  /** `lines` undoes `join` when no line holds a newline and the last line is
      not empty (an empty last line is swallowed by the final separator). */
  lemma {:induction false} LinesOfJoin(ls: seq<string>)
    requires forall i :: 0 <= i < |ls| ==> '\n' !in ls[i]
    requires ls != [] ==> ls[|ls| - 1] != []
    ensures Lines(Join(ls)) == ls
  {
    if |ls| == 0 {
    } else if |ls| == 1 {
      assert IndexOf(ls[0], '\n') == |ls[0]|;
    } else {
      var s := Join(ls);
      var rest := Join(ls[1..]);
      assert s == ls[0] + "\n" + rest;
      LinesOfJoin(ls[1..]);
      JoinNonEmpty(ls[1..]);
      assert IndexOf(s, '\n') == |ls[0]| by {
        IndexOfPrefix(ls[0], rest);
      }
      assert s[..|ls[0]|] == ls[0];
      assert s[|ls[0]| + 1..] == rest;
    }
  }

  lemma {:induction false} JoinNonEmpty(ls: seq<string>)
    requires ls != [] && ls[|ls| - 1] != []
    ensures Join(ls) != []
  {
    if |ls| > 1 {
      assert |Join(ls)| >= 1 + |ls[0]|;
    }
  }

  lemma {:induction false} IndexOfPrefix(a: string, b: string)
    requires '\n' !in a
    ensures IndexOf(a + "\n" + b, '\n') == |a|
  {
    if a != [] {
      assert (a + "\n" + b)[1..] == a[1..] + "\n" + b;
      IndexOfPrefix(a[1..], b);
    }
  }

  /** Rust's `split_whitespace().next().unwrap_or("")`: the first maximal run
      of non-whitespace characters, or the empty string. */
  function FirstToken(s: string): (r: string)
    ensures forall i :: 0 <= i < |r| ==> !IsSpace(r[i])
    ensures r == [] <==> forall i :: 0 <= i < |s| ==> IsSpace(s[i])
    ensures |r| <= |TrimStart(s)| && r == TrimStart(s)[..|r|]
    ensures |r| < |TrimStart(s)| ==> IsSpace(TrimStart(s)[|r|])
  {
    var t := TrimStart(s);
    var r := TakeNonSpace(t);
    assert t != [] ==> r != [];
    r
  }

  function TakeNonSpace(s: string): (r: string)
    ensures |r| <= |s| && r == s[..|r|]
    ensures forall i :: 0 <= i < |r| ==> !IsSpace(r[i])
    ensures |r| < |s| ==> IsSpace(s[|r|])
  {
    if s == [] || IsSpace(s[0]) then []
    else
      var rest := TakeNonSpace(s[1..]);
      assert [s[0]] + rest == s[..1 + |rest|];
      [s[0]] + rest
  }

  // ---- decimal numbers -------------------------------------------------

  predicate IsDigit(c: char) {
    '0' <= c <= '9'
  }

  function DigitChar(d: nat): (c: char)
    requires d < 10
    ensures IsDigit(c) && c as int - '0' as int == d
  {
    ('0' as int + d) as char
  }

  function DigitValue(c: char): nat
    requires IsDigit(c)
  {
    c as int - '0' as int
  }

  predicate AllDigits(s: string) {
    forall i :: 0 <= i < |s| ==> IsDigit(s[i])
  }

  /** The number a run of decimal digits denotes. */
  function DigitsValue(s: string): nat
    requires AllDigits(s)
  {
    if s == [] then 0 else 10 * DigitsValue(s[..|s| - 1]) + DigitValue(s[|s| - 1])
  }

  /** Rust's `Display` for unsigned integers: decimal, no padding. */
  function NatToString(n: nat): (s: string)
    ensures s != [] && AllDigits(s)
  {
    if n < 10 then [DigitChar(n)] else NatToString(n / 10) + [DigitChar(n % 10)]
  }

  /** Rust's `str::parse::<u64>()`: an optional '+', then one or more decimal
      digits whose value fits in 64 bits; anything else (empty text, a sign
      alone, a '-', whitespace, a trailing newline) is an error. */
  function ParseU64(s: string): (r: Option<nat>)
    ensures r.Some? ==> r.value <= U64Max
  {
    var digits := if |s| > 0 && s[0] == '+' then s[1..] else s;
    if digits == [] || !AllDigits(digits) then None
    else
      var v := DigitsValue(digits);
      if v <= U64Max then Some(v) else None
  }

  /** Digits written by `NatToString` read back as the same number. */
  lemma {:induction false} DigitsValueOfNatToString(n: nat)
    ensures DigitsValue(NatToString(n)) == n
  {
    if n >= 10 {
      var p := NatToString(n / 10);
      var s := p + [DigitChar(n % 10)];
      assert s[..|s| - 1] == p;
      DigitsValueOfNatToString(n / 10);
    }
  }

  /** The marker round trip: what `to_string` writes, `parse::<u64>` reads. */
  lemma ParseU64OfNatToString(n: nat)
    requires n <= U64Max
    ensures ParseU64(NatToString(n)) == Some(n)
  {
    DigitsValueOfNatToString(n);
  }

  /** `to_string` never pads: a number's text starts with '0' only for zero. */
  lemma {:induction false} NatToStringNoLeadingZero(n: nat)
    ensures NatToString(n)[0] == '0' <==> n == 0
  {
    if n >= 10 {
      NatToStringNoLeadingZero(n / 10);
      assert NatToString(n)[0] == NatToString(n / 10)[0];
    }
  }
}
