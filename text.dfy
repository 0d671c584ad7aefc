/**
 * The string operations the catalog relies on, over ASCII only:
 * Python's `str.strip()` and `str.split(",")`, the case folding of the
 * `icontains` lookup, code-point ordering of text columns, `int()` on
 * decimal text, and PostgreSQL's `varchar(n)` length rule.
 */
module Text {
  import opened Wrappers

  /** Python's `str.isspace()` on the ASCII range: tab to carriage return, the
      four separators 0x1C-0x1F, and the space. */
  predicate IsSpace(ch: char) {
    ch == ' ' || ('\t' <= ch <= '\r') || ('\U{1C}' <= ch <= '\U{1F}')
  }

  /** Every character is whitespace. */
  predicate Blank(s: string) {
    forall i :: 0 <= i < |s| ==> IsSpace(s[i])
  }

  function TrimLeft(s: string): (r: string)
    ensures |r| <= |s| && r == s[|s| - |r|..]
    ensures r == [] || !IsSpace(r[0])
    ensures Blank(s[..|s| - |r|])
  {
    if s != [] && IsSpace(s[0]) then
      var r := TrimLeft(s[1..]);
      assert s[1..][..|s[1..]| - |r|] == s[1..|s| - |r|];
      r
    else s
  }

  function TrimRight(s: string): (r: string)
    ensures |r| <= |s| && r == s[..|r|]
    ensures r == [] || !IsSpace(r[|r| - 1])
    ensures Blank(s[|r|..])
  {
    if s != [] && IsSpace(s[|s| - 1]) then
      var r := TrimRight(s[..|s| - 1]);
      r
    else s
  }

  /** Python's `s.strip()`: leading and trailing whitespace removed. */
  function Strip(s: string): (r: string)
    ensures Blank(s[..|s| - |TrimLeft(s)|])
    ensures |r| <= |TrimLeft(s)| && r == TrimLeft(s)[..|r|] && Blank(TrimLeft(s)[|r|..])
    ensures r == [] || (!IsSpace(r[0]) && !IsSpace(r[|r| - 1]))
  {
    TrimRight(TrimLeft(s))
  }

  /** `not s.strip()` holds exactly when `s` is made of whitespace only. */
  lemma StripEmptyIffBlank(s: string)
    ensures Strip(s) == [] <==> Blank(s)
  {
    var l := TrimLeft(s);
    if Strip(s) == [] {
      assert l[0..] == l;
      assert l == [];
      assert s[..|s|] == s;
    } else {
      var r := Strip(s);
      assert !IsSpace(r[0]);
      assert l[0] == r[0];
      assert s[|s| - |l|] == l[0];
    }
  }

  function LowerChar(ch: char): char {
    if 'A' <= ch <= 'Z' then (ch as int + 32) as char else ch
  }

  /** ASCII lower-casing: every upper-case letter becomes the same letter in
      lower case, and every other character is kept. */
  function Lower(s: string): (r: string)
    ensures |r| == |s|
    ensures forall i :: 0 <= i < |s| ==> !('A' <= r[i] <= 'Z')
    ensures forall i :: 0 <= i < |s| && !('A' <= s[i] <= 'Z') ==> r[i] == s[i]
    ensures forall i :: 0 <= i < |s| && 'A' <= s[i] <= 'Z' ==>
      'a' <= r[i] <= 'z' && r[i] as int - 'a' as int == s[i] as int - 'A' as int
  {
    seq(|s|, i requires 0 <= i < |s| => LowerChar(s[i]))
  }

  /** Lower-casing twice is lower-casing once. */
  lemma LowerIdempotent(s: string)
    ensures Lower(Lower(s)) == Lower(s)
  {
    var l := Lower(s);
    assert forall i :: 0 <= i < |l| ==> Lower(l)[i] == l[i];
  }

  predicate IsPrefix(pat: string, s: string) {
    |pat| <= |s| && s[..|pat|] == pat
  }

  /** Substring test, scanning the start positions of `s` left to right. */
  function Contains(s: string, pat: string): (r: bool)
    ensures IsPrefix(pat, s) ==> r
    ensures r ==> |pat| <= |s|
    decreases |s|
  {
    IsPrefix(pat, s) || (s != [] && Contains(s[1..], pat))
  }

  /** `pat` occurs in `s` starting at position `i`. */
  predicate OccursAt(s: string, pat: string, i: int) {
    0 <= i <= |s| - |pat| && s[i..i + |pat|] == pat
  }

  /** The scan finds `pat` exactly when it occurs at some position of `s`. */
  lemma {:induction false} ContainsIff(s: string, pat: string)
    ensures Contains(s, pat) <==> exists i :: OccursAt(s, pat, i)
    decreases |s|
  {
    if IsPrefix(pat, s) {
      assert OccursAt(s, pat, 0);
    } else if s == [] {
      assert forall i :: !OccursAt(s, pat, i);
    } else {
      ContainsIff(s[1..], pat);
      if Contains(s[1..], pat) {
        var i :| OccursAt(s[1..], pat, i);
        assert s[1..][i..i + |pat|] == s[i + 1..i + 1 + |pat|];
        assert OccursAt(s, pat, i + 1);
      } else {
        assert !OccursAt(s, pat, 0);
        forall i | 1 <= i <= |s| - |pat| ensures !OccursAt(s, pat, i) {
          assert !OccursAt(s[1..], pat, i - 1);
          assert s[1..][i - 1..i - 1 + |pat|] == s[i..i + |pat|];
        }
      }
    }
  }

  /** Lexicographic order on code points (the C collation). */
  predicate TextLe(a: string, b: string)
    decreases |a|
  {
    if a == [] then true
    else if b == [] then false
    else if a[0] != b[0] then a[0] < b[0]
    else TextLe(a[1..], b[1..])
  }

  predicate TextLt(a: string, b: string) {
    TextLe(a, b) && a != b
  }

  lemma {:induction false} TextLeTotal(a: string, b: string)
    ensures TextLe(a, b) || TextLe(b, a)
    decreases |a|
  {
    if a != [] && b != [] && a[0] == b[0] {
      TextLeTotal(a[1..], b[1..]);
    }
  }

  lemma {:induction false} TextLeAntisymmetric(a: string, b: string)
    requires TextLe(a, b) && TextLe(b, a)
    ensures a == b
    decreases |a|
  {
    if a != [] && b != [] {
      TextLeAntisymmetric(a[1..], b[1..]);
      assert a == [a[0]] + a[1..] && b == [b[0]] + b[1..];
    }
  }

  lemma {:induction false} TextLeTransitive(a: string, b: string, c: string)
    requires TextLe(a, b) && TextLe(b, c)
    ensures TextLe(a, c)
    decreases |a|
  {
    if a != [] && b != [] && c != [] && a[0] == b[0] && b[0] == c[0] {
      TextLeTransitive(a[1..], b[1..], c[1..]);
    }
  }

  /** `s` cut at every `sep`, as Python's `s.split(sep)`: always at least one
      piece, empty pieces kept. */
  function Split(s: string, sep: char): (r: seq<string>)
    ensures |r| >= 1
    ensures forall k :: 0 <= k < |r| ==> sep !in r[k]
    ensures Join(r, sep) == s
    decreases |s|
  {
    if s == [] then [[]]
    else if s[0] == sep then
      var rest := Split(s[1..], sep);
      assert s == [sep] + s[1..];
      [[]] + rest
    else
      var rest := Split(s[1..], sep);
      var r := [[s[0]] + rest[0]] + rest[1..];
      assert r[1..] == rest[1..];
      assert s == [s[0]] + s[1..];
      r
  }

  /** The pieces glued back with `sep` between them, as Python's `sep.join(pieces)`. */
  function Join(pieces: seq<string>, sep: char): string
    requires |pieces| >= 1
  {
    if |pieces| == 1 then pieces[0] else pieces[0] + [sep] + Join(pieces[1..], sep)
  }

  /** Splitting a joined sequence of comma-free pieces gives the pieces back. */
  lemma {:induction false} SplitJoin(pieces: seq<string>, sep: char)
    requires |pieces| >= 1
    requires forall k :: 0 <= k < |pieces| ==> sep !in pieces[k]
    ensures Split(Join(pieces, sep), sep) == pieces
    decreases |pieces|, |pieces[0]|
  {
    var p := pieces[0];
    if |pieces| == 1 && p == [] {
    } else if p == [] {
      SplitJoin(pieces[1..], sep);
      assert Join(pieces, sep) == [sep] + Join(pieces[1..], sep);
      assert pieces == [[]] + pieces[1..];
    } else {
      var tail := [p[1..]] + pieces[1..];
      assert forall k :: 0 <= k < |tail| ==> sep !in tail[k] by {
        forall k | 0 <= k < |tail| ensures sep !in tail[k] {
          if k == 0 { assert forall c :: c in p[1..] ==> c in p; } else { assert tail[k] == pieces[k]; }
        }
      }
      SplitJoin(tail, sep);
      var s := Join(tail, sep);
      assert Join(pieces, sep) == [p[0]] + s by {
        assert tail[1..] == pieces[1..];
      }
      assert p[0] != sep && ([p[0]] + s)[1..] == s;
      assert [p[0]] + p[1..] == p;
    }
  }

  predicate IsDigit(ch: char) {
    '0' <= ch <= '9'
  }

  predicate AllDigits(s: string) {
    forall i :: 0 <= i < |s| ==> IsDigit(s[i])
  }

  /** The value of a run of decimal digits, most significant first. */
  function DigitsValue(s: string): nat
    requires AllDigits(s)
    decreases |s|
  {
    if s == [] then 0 else DigitsValue(s[..|s| - 1]) * 10 + (s[|s| - 1] as int - '0' as int)
  }

  /** Python's `int(s)` on text: an optional sign followed by at least one
      decimal digit; anything else is refused. */
  function ParseInt(s: string): (r: Option<int>)
    ensures r.Some? <==>
      || (s != [] && AllDigits(s))
      || (|s| >= 2 && (s[0] == '-' || s[0] == '+') && AllDigits(s[1..]))
    ensures r.Some? && r.value < 0 ==> s[0] == '-'
  {
    if |s| >= 2 && (s[0] == '-' || s[0] == '+') && AllDigits(s[1..]) then
      var v: int := DigitsValue(s[1..]);
      Some(if s[0] == '-' then -v else v)
    else if s != [] && AllDigits(s) then Some(DigitsValue(s))
    else None
  }

  /** The shortest decimal text of `n`, as Python's `str(n)`. */
  function Decimal(n: int): string
    decreases if n < 0 then -n + 1 else n
  {
    if n < 0 then "-" + Decimal(-n)
    else if n < 10 then [('0' as int + n) as char]
    else Decimal(n / 10) + [('0' as int + n % 10) as char]
  }

  lemma {:induction false} DecimalDigits(n: nat)
    ensures Decimal(n) != [] && AllDigits(Decimal(n))
    ensures DigitsValue(Decimal(n)) == n
  {
    if n >= 10 {
      DecimalDigits(n / 10);
      var d := Decimal(n);
      var last := ('0' as int + n % 10) as char;
      assert d == Decimal(n / 10) + [last];
      assert d[..|d| - 1] == Decimal(n / 10);
      assert DigitsValue(d) == DigitsValue(Decimal(n / 10)) * 10 + n % 10;
    }
  }

  /** `int(str(n)) == n`: parsing inverts rendering. */
  lemma ParseDecimal(n: int)
    ensures ParseInt(Decimal(n)) == Some(n)
  {
    if n < 0 {
      DecimalDigits(-n);
      var d := Decimal(n);
      assert d == "-" + Decimal(-n);
      assert d[1..] == Decimal(-n);
      assert |d| >= 2 && d[0] == '-';
    } else {
      DecimalDigits(n);
      var d := Decimal(n);
      assert IsDigit(d[0]);
    }
  }

  /** PostgreSQL's `varchar(n)`: a longer value is refused unless the excess is
      all spaces, which are then cut off. */
  function Varchar(s: string, n: nat): (r: Option<string>)
    ensures r.Some? ==> |r.value| <= n && IsPrefix(r.value, s)
    ensures |s| <= n ==> r == Some(s)
    ensures r.None? <==> exists i :: n <= i < |s| && s[i] != ' '
    ensures r.Some? && n < |s| ==> r.value == s[..n]
  {
    if |s| <= n then Some(s)
    else if forall i :: n <= i < |s| ==> s[i] == ' ' then Some(s[..n])
    else None
  }
}
