/**
 * Utility string functions of zellij-utils/src/shared.rs:
 * `adjust_to_size`, which fits a block of text to a pane, and `version_number`,
 * which turns a semver string into a comparable number.
 */
module Shared {
  import opened Wrappers

  // ---------------------------------------------------------------------------
  // Strings and the parts of Rust's `str` API that the two functions use
  // ---------------------------------------------------------------------------

  /** `n` spaces, as `str::repeat(" ", n)`. */
  function Spaces(n: nat): (r: string)
    ensures |r| == n && forall i | 0 <= i < n :: r[i] == ' '
  {
    seq(n, _ => ' ')
  }

  /** Index of the first `c` in `s`, or `|s|` when there is none. */
  function IndexOf(s: string, c: char): (i: nat)
    ensures i <= |s|
    ensures i < |s| ==> s[i] == c
    ensures forall j | 0 <= j < i :: s[j] != c
  {
    if s == [] then 0
    else if s[0] == c then 0
    else 1 + IndexOf(s[1..], c)
  }

  /** `str::split(c)`: the pieces between the separators, empty ones included. */
  function Split(s: string, c: char): (r: seq<string>)
    ensures |r| >= 1
    ensures forall k | 0 <= k < |r| :: c !in r[k]
    decreases |s|
  {
    var i := IndexOf(s, c);
    if i == |s| then [s] else [s[..i]] + Split(s[i + 1..], c)
  }

  /** `parts.join(sep)`. */
  function Join(parts: seq<string>, sep: string): string
  {
    if parts == [] then ""
    else if |parts| == 1 then parts[0]
    else parts[0] + sep + Join(parts[1..], sep)
  }

  lemma {:induction false} SplitJoin(s: string, c: char)
    ensures Join(Split(s, c), [c]) == s
    decreases |s|
  {
    var i := IndexOf(s, c);
    if i < |s| {
      SplitJoin(s[i + 1..], c);
      SplitJoinAt(s, c, i);
    } else {
      assert Split(s, c) == [s];
    }
  }

  lemma SplitJoinAt(s: string, c: char, i: nat)
    requires i == IndexOf(s, c) < |s|
    requires Join(Split(s[i + 1..], c), [c]) == s[i + 1..]
    ensures Join(Split(s, c), [c]) == s
  {
    var rest := Split(s[i + 1..], c);
    SplitAtSeparator(s, c, i);
    JoinFront(s[..i], rest, [c]);
    SplitAround(s, i);
  }

  lemma SplitAtSeparator(s: string, c: char, i: nat)
    requires i == IndexOf(s, c) < |s|
    ensures Split(s, c) == [s[..i]] + Split(s[i + 1..], c)
  {
  }

  lemma SplitAround(s: string, i: nat)
    requires i < |s|
    ensures s == s[..i] + [s[i]] + s[i + 1..]
  {
  }

  lemma JoinFront(first: string, rest: seq<string>, sep: string)
    requires rest != []
    ensures Join([first] + rest, sep) == first + sep + Join(rest, sep)
  {
    assert ([first] + rest)[1..] == rest;
  }

  /** Drops one trailing carriage return. */
  function StripCr(l: string): (r: string)
    ensures r == l || (l == r + ['\r'])
  {
    if |l| > 0 && l[|l| - 1] == '\r' then l[..|l| - 1] else l
  }

  /**
   * `str::lines` of the Rust standard library of the time: the string is cut
   * at every '\n' (`split_terminator`, so a final '\n' does not start another
   * line and the empty string has no lines), and one trailing '\r' is removed
   * from every line.
   */
  function Lines(s: string): (r: seq<string>)
    ensures s == [] <==> r == []
    ensures forall k | 0 <= k < |r| :: '\n' !in r[k]
    decreases |s|
  {
    if s == [] then []
    else
      var i := IndexOf(s, '\n');
      if i == |s| then [StripCr(s)]
      else [StripCr(s[..i])] + Lines(s[i + 1..])
  }

  /** A text without carriage returns that does not end in '\n' is its lines joined by '\n'. */
  lemma {:induction false} LinesJoin(s: string)
    requires '\r' !in s
    requires s == [] || s[|s| - 1] != '\n'
    ensures Join(Lines(s), "\n") == s
    decreases |s|
  {
    if s != [] {
      var i := IndexOf(s, '\n');
      if i < |s| {
        assert s == s[..i] + "\n" + s[i + 1..];
        assert s[i + 1..] != [];
        assert s[i + 1..][|s[i + 1..]| - 1] == s[|s| - 1];
        LinesJoin(s[i + 1..]);
        assert StripCr(s[..i]) == s[..i];
        assert Lines(s[i + 1..]) != [];
      } else {
        assert StripCr(s) == s;
      }
    }
  }

  // ---------------------------------------------------------------------------
  // UTF-8 lengths and `String::truncate`
  // ---------------------------------------------------------------------------

  /** Number of bytes of the UTF-8 encoding of `c`. */
  function Utf8Len(c: char): (n: nat)
    ensures 1 <= n <= 4
    ensures (c as int < 0x80) <==> n == 1
  {
    if c as int < 0x80 then 1
    else if c as int < 0x800 then 2
    else if c as int < 0x1_0000 then 3
    else 4
  }

  /** `String::len`: the length of `s` in bytes. */
  function ByteLen(s: string): (n: nat)
    ensures n >= |s|
  {
    if s == [] then 0 else Utf8Len(s[0]) + ByteLen(s[1..])
  }

  predicate IsAscii(s: string)
  {
    forall i | 0 <= i < |s| :: s[i] as int < 0x80
  }

  /**
   * `String::truncate(n)`: keeps the first `n` BYTES. It does nothing when `n`
   * is at least the length, and panics (`None` here) when byte `n` falls inside
   * a multi-byte character.
   */
  function Truncate(s: string, n: nat): (r: Option<string>)
    ensures r.Some? ==> r.value <= s
    ensures r.Some? ==> ByteLen(r.value) == if n < ByteLen(s) then n else ByteLen(s)
    ensures r.None? ==> n < ByteLen(s)
  {
    if n == 0 || s == [] then Some([])
    else if Utf8Len(s[0]) <= n then
      match Truncate(s[1..], n - Utf8Len(s[0]))
      case None => None
      case Some(t) => Some([s[0]] + t)
    else None
  }

  /** On ASCII text the byte count is the character count, so truncation never panics. */
  lemma {:induction false} TruncateAscii(s: string, n: nat)
    requires IsAscii(s)
    ensures Truncate(s, n) == Some(s[..if n < |s| then n else |s|])
  {
    if n != 0 && s != [] {
      assert Utf8Len(s[0]) == 1;
      assert IsAscii(s[1..]) by {
        forall i | 0 <= i < |s| - 1 ensures s[1..][i] as int < 0x80 { assert s[1..][i] == s[i + 1]; }
      }
      TruncateAscii(s[1..], n - 1);
      var m := if n < |s| then n else |s|;
      assert [s[0]] + s[1..][..m - 1] == s[..m];
    }
  }

  // ---------------------------------------------------------------------------
  // adjust_to_size
  // ---------------------------------------------------------------------------

  /**
   * One line of `adjust_to_size`. `ansiLen` is the visible length of a line
   * (its character count once ANSI escapes are stripped, computed by an
   * external crate). A line wider than `columns` is cut with `String::truncate`,
   * which counts bytes; any other line is right-padded with spaces.
   */
  function AdjustLine(l: string, columns: nat, ansiLen: string -> nat): (r: Option<string>)
    ensures ansiLen(l) <= columns ==>
      && r.Some? && |r.value| == |l| + (columns - ansiLen(l)) && r.value[..|l|] == l
      && forall i | |l| <= i < |r.value| :: r.value[i] == ' '
    ensures ansiLen(l) > columns && r.Some? ==> r.value <= l
  {
    if ansiLen(l) > columns then Truncate(l, columns)
    else Some(l + Spaces(columns - ansiLen(l)))
  }

  /**
   * The first `rows` lines of the output: the input lines adjusted, followed by
   * lines of `columns` spaces. The Rust iterator is lazy, so only the lines that
   * are taken are adjusted (and only they can panic).
   */
  function AdjustLines(ls: seq<string>, rows: nat, columns: nat, ansiLen: string -> nat): (r: Option<seq<string>>)
    ensures r.Some? ==> |r.value| == rows
    ensures r.Some? ==> forall i | 0 <= i < rows ::
      if i < |ls| then AdjustLine(ls[i], columns, ansiLen) == Some(r.value[i]) else r.value[i] == Spaces(columns)
    ensures r.None? <==> exists i | 0 <= i < rows && i < |ls| :: AdjustLine(ls[i], columns, ansiLen).None?
    decreases rows
  {
    if rows == 0 then Some([])
    else
      var head := if ls == [] then Some(Spaces(columns)) else AdjustLine(ls[0], columns, ansiLen);
      var tail := AdjustLines(if ls == [] then [] else ls[1..], rows - 1, columns, ansiLen);
      if head.None? || tail.None? then None else Some([head.value] + tail.value)
  }

  /** `adjust_to_size(s, rows, columns)`; `None` stands for the panic of `String::truncate`. */
  function AdjustToSize(s: string, rows: nat, columns: nat, ansiLen: string -> nat): Option<string>
  {
    match AdjustLines(Lines(s), rows, columns, ansiLen)
    case None => None
    case Some(ls) => Some(Join(ls, "\n\r"))
  }

  /**
   * The output is exactly `rows` lines joined by "\n\r": line `i` is input line
   * `i` adjusted, or `columns` spaces once the input has run out.
   */
  lemma AdjustToSizeShape(s: string, rows: nat, columns: nat, ansiLen: string -> nat)
    requires AdjustToSize(s, rows, columns, ansiLen).Some?
    ensures exists ls: seq<string> ::
      && |ls| == rows
      && AdjustToSize(s, rows, columns, ansiLen) == Some(Join(ls, "\n\r"))
      && forall i | 0 <= i < rows ::
           if i < |Lines(s)| then AdjustLine(Lines(s)[i], columns, ansiLen) == Some(ls[i])
           else ls[i] == Spaces(columns)
  {
    var ls := AdjustLines(Lines(s), rows, columns, ansiLen).value;
    assert AdjustToSize(s, rows, columns, ansiLen) == Some(Join(ls, "\n\r"));
  }

  /** The character count, which is the visible length of a line without escapes. */
  function CharCount(l: string): nat { |l| }

  /**
   * On ASCII text without escapes every output line is exactly `columns`
   * characters wide: short lines are padded and long lines cut.
   */
  lemma {:induction false} AdjustLineAsciiWidth(l: string, columns: nat)
    requires IsAscii(l)
    ensures AdjustLine(l, columns, CharCount).Some?
    ensures |AdjustLine(l, columns, CharCount).value| == columns
  {
    var r := AdjustLine(l, columns, CharCount);
    if |l| > columns {
      TruncateAscii(l, columns);
    }
  }

  /**
   * The truncation counts bytes, so a line of two-byte characters that is too
   * wide for a one-column pane makes `adjust_to_size` panic.
   */
  lemma AdjustToSizePanicsOnMultiByteLine()
    ensures AdjustToSize("éé", 1, 1, CharCount).None?
  {
    var s := "éé";
    assert Utf8Len(s[0]) == 2;
    assert Lines(s) == [s] by {
      assert IndexOf(s, '\n') == |s|;
      assert StripCr(s) == s;
    }
    assert AdjustLine(s, 1, CharCount) == Truncate(s, 1);
    assert Truncate(s, 1).None?;
  }

  /** The line adjustment as evidently intended: truncation counts characters. */
  function AdjustLineByChars(l: string, columns: nat, ansiLen: string -> nat): (r: string)
    ensures ansiLen(l) > columns ==> r <= l && |r| == if columns < |l| then columns else |l|
    ensures ansiLen(l) <= columns ==>
      && |r| == |l| + (columns - ansiLen(l)) && r[..|l|] == l
      && forall i | |l| <= i < |r| :: r[i] == ' '
  {
    if ansiLen(l) > columns then l[..if columns < |l| then columns else |l|]
    else l + Spaces(columns - ansiLen(l))
  }

  /** The first `rows` lines: the input lines adjusted, then lines of `columns` spaces. */
  function AdjustLinesByChars(ls: seq<string>, rows: nat, columns: nat, ansiLen: string -> nat): (r: seq<string>)
    ensures |r| == rows
  {
    seq(rows, i requires 0 <= i < rows => if i < |ls| then AdjustLineByChars(ls[i], columns, ansiLen) else Spaces(columns))
  }

  /** `adjust_to_size` with character-count truncation: it never panics. */
  function AdjustToSizeByChars(s: string, rows: nat, columns: nat, ansiLen: string -> nat): string
  {
    Join(AdjustLinesByChars(Lines(s), rows, columns, ansiLen), "\n\r")
  }

  /**
   * With character-count truncation, text without escapes (any characters) is
   * fitted to exactly `rows` lines of exactly `columns` characters.
   */
  lemma AdjustByCharsFits(s: string, rows: nat, columns: nat)
    ensures forall i | 0 <= i < rows :: |AdjustLinesByChars(Lines(s), rows, columns, CharCount)[i]| == columns
  {
    var ls := Lines(s);
    var r := AdjustLinesByChars(ls, rows, columns, CharCount);
    forall i | 0 <= i < rows ensures |r[i]| == columns {
      if i < |ls| {
        assert r[i] == AdjustLineByChars(ls[i], columns, CharCount);
      } else {
        assert r[i] == Spaces(columns);
      }
    }
  }

  // ---------------------------------------------------------------------------
  // version_number
  // ---------------------------------------------------------------------------

  const USIZE_LIMIT: nat := 0x1_0000_0000_0000_0000

  predicate IsDigit(c: char) { '0' <= c <= '9' }

  function DigitValue(c: char): nat
    requires IsDigit(c)
  {
    (c as int) - ('0' as int)
  }

  /** The decimal value of a string of digits. */
  function DigitsValue(s: string): nat
    requires forall i | 0 <= i < |s| :: IsDigit(s[i])
  {
    if s == [] then 0 else DigitsValue(s[..|s| - 1]) * 10 + DigitValue(s[|s| - 1])
  }

  /**
   * `str::parse::<usize>()`: an optional '+' followed by at least one decimal
   * digit, with a value that fits in 64 bits; anything else is an error.
   */
  function ParseUsize(s: string): (r: Option<nat>)
    ensures r.Some? ==> r.value < USIZE_LIMIT
    ensures s == [] ==> r.None?
  {
    var digits := if |s| > 0 && s[0] == '+' then s[1..] else s;
    if digits != [] && (forall i | 0 <= i < |digits| :: IsDigit(digits[i])) && DigitsValue(digits) < USIZE_LIMIT
    then Some(DigitsValue(digits))
    else None
  }

  /** `parse::<usize>().unwrap_or(0)`: a component that does not parse counts as 0. */
  function Component(s: string): nat
  {
    match ParseUsize(s)
    case Some(v) => v
    case None => 0
  }

  function Pow100(i: nat): (r: nat)
    ensures r >= 1
  {
    if i == 0 then 1 else 100 * Pow100(i - 1)
  }

  /** `c` times `100^i`, written with multiplications by the constant 100 only. */
  function Scaled(c: nat, i: nat): nat
  {
    if i == 0 then c else 100 * Scaled(c, i - 1)
  }

  lemma {:induction false} ScaledIsProduct(c: nat, i: nat)
    ensures Scaled(c, i) == Pow100(i) * c
  {
    if i > 0 {
      ScaledIsProduct(c, i - 1);
      assert Pow100(i) * c == 100 * (Pow100(i - 1) * c);
    }
  }

  /**
   * The weighted sum of the components: the rightmost one has weight 1, the
   * next 100, then 10000, and so on.
   */
  function Weighted(parts: seq<string>): nat
    decreases |parts|
  {
    if parts == [] then 0 else Scaled(Component(parts[0]), |parts| - 1) + Weighted(parts[1..])
  }

  /** Index of the last `c` in `s`, as `str::rfind`. */
  function LastIndexOf(s: string, c: char): (r: Option<nat>)
    ensures r.Some? ==> r.value < |s| && s[r.value] == c && c !in s[r.value + 1..]
    ensures r.None? ==> c !in s
  {
    if s == [] then None
    else if s[|s| - 1] == c then Some(|s| - 1)
    else
      var r := LastIndexOf(s[..|s| - 1], c);
      assert forall i | 0 <= i < |s| - 1 :: s[..|s| - 1][i] == s[i];
      r
  }

  /** Everything from the last '-' onwards is a pre-release tag and is dropped. */
  function WithoutTag(version: string): string
  {
    match LastIndexOf(version, '-')
    case Some(i) => version[..i]
    case None => version
  }

  /** The number `version_number` returns, as a specification. */
  function VersionValue(version: string): nat
  {
    Weighted(Split(WithoutTag(version), '.'))
  }

  /** The weighted sum of a suffix, taken apart at its first component. */
  lemma WeightedFrom(parts: seq<string>, k: nat)
    requires k < |parts|
    ensures Weighted(parts[k..]) == Pow100(|parts| - 1 - k) * Component(parts[k]) + Weighted(parts[k + 1..])
  {
    assert parts[k..][1..] == parts[k + 1..];
    ScaledIsProduct(Component(parts[k]), |parts| - 1 - k);
  }

  /** `version_number`: a for-loop over the components from the right. */
  method VersionNumber(version: string) returns (n: nat)
    ensures n == VersionValue(version)
  {
    var v := version;
    var sep := LastIndexOf(v, '-');
    if sep.Some? {
      v := v[..sep.value];
    }
    var parts := Split(v, '.');
    n := 0;
    var i := 0;
    var weight := 1;
    while i < |parts|
      invariant 0 <= i <= |parts|
      invariant weight == Pow100(i)
      invariant n == Weighted(parts[|parts| - i..])
    {
      var k := |parts| - 1 - i;
      WeightedFrom(parts, k);
      n := n + weight * Component(parts[k]);
      i := i + 1;
      weight := weight * 100;
    }
    assert parts[0..] == parts;
  }

  lemma SplitExample()
    ensures Split("0.12.1", '.') == ["0", "12", "1"]
  {
    assert Split("1", '.') == ["1"] by { assert IndexOf("1", '.') == 1; }
    assert Split("12.1", '.') == ["12", "1"] by {
      assert IndexOf("12.1", '.') == 2;
      assert "12.1"[..2] == "12" && "12.1"[3..] == "1";
    }
    assert IndexOf("0.12.1", '.') == 1;
    assert "0.12.1"[..1] == "0" && "0.12.1"[2..] == "12.1";
  }

  lemma ComponentExamples()
    ensures Component("0") == 0 && Component("1") == 1 && Component("12") == 12
  {
    assert DigitsValue("0") == DigitsValue("0"[..0]) * 10 + 0;
    assert DigitsValue("1") == DigitsValue("1"[..0]) * 10 + 1;
    assert "12"[..1] == "1";
    assert DigitsValue("12") == DigitsValue("1") * 10 + 2;
  }

  /** "0.12.1" is 1201. */
  lemma VersionExample()
    ensures VersionValue("0.12.1") == 1201
  {
    NoTag("0.12.1");
    SplitExample();
    WeightedExample();
    assert WithoutTag("0.12.1") == "0.12.1";
    assert Split(WithoutTag("0.12.1"), '.') == ["0", "12", "1"];
  }

  lemma WeightedExample()
    ensures Weighted(["0", "12", "1"]) == 1201
  {
    ComponentExamples();
    var parts := ["0", "12", "1"];
    assert parts[1..] == ["12", "1"] && parts[1..][1..] == ["1"] && parts[1..][1..][1..] == [];
    assert Weighted(["1"]) == 1;
    assert Scaled(12, 1) == 1200;
    assert Weighted(["12", "1"]) == 1201;
    assert Scaled(0, 2) == 0;
  }

  lemma NoTag(version: string)
    requires '-' !in version
    ensures WithoutTag(version) == version
  {
  }

  /** The pre-release tag after the last '-' does not change the number. */
  lemma VersionIgnoresTag(version: string, tag: string)
    requires '-' !in tag
    ensures VersionValue(version + "-" + tag) == Weighted(Split(version, '.'))
  {
    var s := version + "-" + tag;
    assert s[|version|] == '-';
    assert s[|version| + 1..] == tag;
    assert LastIndexOf(s, '-') == Some(|version|);
    assert s[..|version|] == version;
  }

  /** Components that do not parse count as 0. */
  lemma UnparsableComponentIsZero(parts: seq<string>, k: nat)
    requires k < |parts| && ParseUsize(parts[k]).None?
    ensures Weighted(parts) == Weighted(parts[k := "0"])
  {
    assert ParseUsize("0") == Some(0) by { assert DigitsValue("0") == DigitsValue("") * 10 + 0; }
    if k > 0 {
      UnparsableComponentIsZero(parts[1..], k - 1);
      assert parts[k := "0"][1..] == parts[1..][k - 1 := "0"];
    } else {
      assert parts[k := "0"][1..] == parts[1..];
    }
  }

  /** Components below 100 leave the number of a shorter list below one weight step. */
  lemma {:induction false} WeightedBound(parts: seq<string>)
    requires forall i | 0 <= i < |parts| :: Component(parts[i]) < 100
    ensures Weighted(parts) < Pow100(|parts|)
    decreases |parts|
  {
    if parts != [] {
      var rest := parts[1..];
      forall i | 0 <= i < |rest| ensures Component(rest[i]) < 100 {
        assert rest[i] == parts[i + 1];
      }
      WeightedBound(rest);
      ScaledBelowNextWeight(Component(parts[0]), |rest|);
    }
  }

  lemma {:induction false} ScaledBelowNextWeight(c: nat, i: nat)
    requires c < 100
    ensures Scaled(c, i) + Pow100(i) <= Pow100(i + 1)
  {
    if i > 0 {
      ScaledBelowNextWeight(c, i - 1);
    }
  }

  /** One more unit of a component outweighs a full weight step of the components after it. */
  lemma {:induction false} ScaledGap(ca: nat, cb: nat, i: nat)
    requires ca < cb
    ensures Scaled(ca, i) + Pow100(i) <= Scaled(cb, i)
  {
    if i > 0 {
      ScaledGap(ca, cb, i - 1);
    }
  }

  /**
   * When every component is below 100, a version that is higher in semver order
   * (the first differing component is larger) gets a higher number.
   */
  lemma {:induction false} VersionMonotonic(a: seq<string>, b: seq<string>, k: nat)
    requires |a| == |b| && k < |a|
    requires forall i | 0 <= i < |a| :: Component(a[i]) < 100 && Component(b[i]) < 100
    requires forall i | 0 <= i < k :: Component(a[i]) == Component(b[i])
    requires Component(a[k]) < Component(b[k])
    ensures Weighted(a) < Weighted(b)
  {
    if k == 0 {
      FirstComponentDecides(a, b);
    } else {
      var ta, tb := a[1..], b[1..];
      assert forall i | 0 <= i < |ta| :: ta[i] == a[i + 1];
      assert forall i | 0 <= i < |tb| :: tb[i] == b[i + 1];
      VersionMonotonic(ta, tb, k - 1);
    }
  }

  /** A larger first component outweighs anything the later components add. */
  lemma FirstComponentDecides(a: seq<string>, b: seq<string>)
    requires |a| == |b| > 0
    requires forall i | 0 <= i < |a| :: Component(a[i]) < 100
    requires Component(a[0]) < Component(b[0])
    ensures Weighted(a) < Weighted(b)
  {
    var n := |a| - 1;
    TailBelowWeight(a);
    ScaledGap(Component(a[0]), Component(b[0]), n);
    WeightedFront(a);
    WeightedFront(b);
    assert Weighted(a) < Scaled(Component(a[0]), n) + Pow100(n) <= Weighted(b);
  }

  lemma WeightedFront(a: seq<string>)
    requires |a| > 0
    ensures Weighted(a) == Scaled(Component(a[0]), |a| - 1) + Weighted(a[1..])
  {
  }

  lemma TailBelowWeight(a: seq<string>)
    requires |a| > 0
    requires forall i | 0 <= i < |a| :: Component(a[i]) < 100
    ensures Weighted(a[1..]) < Pow100(|a| - 1)
  {
    var ta := a[1..];
    forall i | 0 <= i < |ta| ensures Component(ta[i]) < 100 {
      assert ta[i] == a[i + 1];
    }
    WeightedBound(ta);
  }
}
