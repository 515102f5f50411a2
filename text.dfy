/**
 * The string operations the session components use: trimming as
 * JavaScript's String.prototype.trim does it, upper-casing of the join code,
 * and the normalisation of a typed join code.
 */
module Text {

  /**
   * White space and line terminators as ECMAScript defines them for trim:
   * TAB, VT, FF, SP, NBSP, ZWNBSP, the Unicode space separators, LF, CR,
   * LINE SEPARATOR and PARAGRAPH SEPARATOR.
   */
  predicate IsSpace(c: char)
  {
    var n := c as int;
    n == 0x09 || n == 0x0A || n == 0x0B || n == 0x0C || n == 0x0D || n == 0x20
    || n == 0xA0 || n == 0x1680 || (0x2000 <= n <= 0x200A)
    || n == 0x2028 || n == 0x2029 || n == 0x202F || n == 0x205F
    || n == 0x3000 || n == 0xFEFF
  }

  /** Every character of `s` is white space (vacuously so for ""). */
  predicate AllSpace(s: string)
  {
    forall i :: 0 <= i < |s| ==> IsSpace(s[i])
  }

  /** `s` without its leading white space. */
  function TrimStart(s: string): string
  {
    if s != [] && IsSpace(s[0]) then TrimStart(s[1..]) else s
  }

  /** TrimStart removes a prefix of white space, up to a character that is not. */
  lemma {:induction false} TrimStartSpec(s: string)
    ensures var r := TrimStart(s);
      |r| <= |s| && r == s[|s| - |r|..] && AllSpace(s[..|s| - |r|]) && (r != [] ==> !IsSpace(r[0]))
  {
    if s != [] && IsSpace(s[0]) {
      TrimStartSpec(s[1..]);
      var r := TrimStart(s);
      assert s[..|s| - |r|] == [s[0]] + s[1..][..|s| - 1 - |r|];
    }
  }

  /** `s` without its trailing white space. */
  function TrimEnd(s: string): string
  {
    if s != [] && IsSpace(s[|s| - 1]) then TrimEnd(s[..|s| - 1]) else s
  }

  /** TrimEnd removes a suffix of white space, back to a character that is not. */
  lemma {:induction false} TrimEndSpec(s: string)
    ensures var r := TrimEnd(s);
      |r| <= |s| && r == s[..|r|] && AllSpace(s[|r|..]) && (r != [] ==> !IsSpace(r[|r| - 1]))
  {
    if s != [] && IsSpace(s[|s| - 1]) {
      TrimEndSpec(s[..|s| - 1]);
      var r := TrimEnd(s);
      assert s[|r|..] == s[..|s| - 1][|r|..] + [s[|s| - 1]];
    }
  }

  /** The number of white-space characters `s` starts with. */
  function Leading(s: string): nat
  {
    TrimStartSpec(s);
    |s| - |TrimStart(s)|
  }

  /** `s` without leading and trailing white space. */
  function Trim(s: string): (r: string)
    ensures |r| <= |s|
    ensures r != [] ==> !IsSpace(r[0]) && !IsSpace(r[|r| - 1])
  {
    TrimStartSpec(s);
    TrimEndSpec(TrimStart(s));
    TrimEnd(TrimStart(s))
  }

  /**
   * Trim leaves the slice of `s` between the first and the last character
   * that is not white space; everything before and after it is white space.
   */
  lemma TrimSpec(s: string)
    ensures var r := Trim(s); var lo := Leading(s);
      && lo + |r| <= |s| && r == s[lo..lo + |r|] && AllSpace(s[..lo]) && AllSpace(s[lo + |r|..])
      && (r != [] ==> !IsSpace(r[0]) && !IsSpace(r[|r| - 1]))
  {
    var t := TrimStart(s);
    TrimStartSpec(s);
    TrimEndSpec(t);
    var r := TrimEnd(t);
    var lo := Leading(s);
    assert t == s[lo..];
    assert s[lo..lo + |r|] == t[..|r|];
    assert s[lo + |r|..] == t[|r|..];
  }

  /** The trimmed string is empty exactly when the string is all white space. */
  lemma TrimEmptyIffAllSpace(s: string)
    ensures Trim(s) == [] <==> AllSpace(s)
  {
    TrimSpec(s);
    var r := Trim(s);
    var lo := Leading(s);
    if r == [] {
      var t := TrimStart(s);
      TrimStartSpec(s);
      TrimEndSpec(t);
      assert t == [];
      forall i | 0 <= i < |s| ensures IsSpace(s[i]) {
        assert s[..lo][i] == s[i];
      }
    } else {
      assert s[lo] == r[0];
    }
  }

  /** Trimming a trimmed string changes nothing. */
  lemma TrimIdempotent(s: string)
    ensures Trim(Trim(s)) == Trim(s)
  {
    TrimSpec(s);
    var r := Trim(s);
    if r != [] {
      assert TrimStart(r) == r;
      assert TrimEnd(r) == r;
    }
  }

  /** JavaScript's toUpperCase on the ASCII letters; every other character is kept. */
  function UpperChar(c: char): char
  {
    if 'a' <= c <= 'z' then (c as int - 32) as char else c
  }

  function ToUpper(s: string): (r: string)
    ensures |r| == |s|
    ensures forall i :: 0 <= i < |s| ==> r[i] == UpperChar(s[i])
  {
    if s == [] then [] else [UpperChar(s[0])] + ToUpper(s[1..])
  }

  /** Upper-casing neither creates nor removes white space. */
  lemma UpperKeepsSpace(c: char)
    ensures IsSpace(UpperChar(c)) == IsSpace(c)
  {
  }

  /** Upper-casing commutes with slicing. */
  lemma {:induction false} UpperSlice(s: string, lo: int, hi: int)
    requires 0 <= lo <= hi <= |s|
    ensures ToUpper(s[lo..hi]) == ToUpper(s)[lo..hi]
  {
    assert |ToUpper(s[lo..hi])| == hi - lo;
    forall i | 0 <= i < hi - lo ensures ToUpper(s[lo..hi])[i] == ToUpper(s)[lo..hi][i] {
      assert s[lo..hi][i] == s[lo + i];
    }
  }

  lemma {:induction false} UpperTrimStart(s: string)
    ensures TrimStart(ToUpper(s)) == ToUpper(TrimStart(s))
    decreases |s|
  {
    var u := ToUpper(s);
    if s != [] {
      UpperKeepsSpace(s[0]);
      if IsSpace(s[0]) {
        UpperSlice(s, 1, |s|);
        assert u[1..] == ToUpper(s[1..]);
        UpperTrimStart(s[1..]);
      }
    }
  }

  lemma {:induction false} UpperTrimEnd(s: string)
    ensures TrimEnd(ToUpper(s)) == ToUpper(TrimEnd(s))
    decreases |s|
  {
    var u := ToUpper(s);
    if s != [] {
      UpperKeepsSpace(s[|s| - 1]);
      if IsSpace(s[|s| - 1]) {
        UpperSlice(s, 0, |s| - 1);
        assert u[..|u| - 1] == ToUpper(s[..|s| - 1]);
        UpperTrimEnd(s[..|s| - 1]);
      }
    }
  }

  /**
   * The join code that is looked up: the typed code upper-cased, then
   * trimmed (in this order, as the join handler does it).
   */
  function NormalizeCode(code: string): (r: string)
    ensures |r| <= |code|
    ensures forall i :: 0 <= i < |r| ==> !('a' <= r[i] <= 'z')
  {
    TrimSpec(ToUpper(code));
    Trim(ToUpper(code))
  }

  /**
   * Normalising upper-cases the trimmed code: the order of the two steps
   * does not matter, so the looked-up code is upper(trim(code)).
   */
  lemma NormalizeIsUpperOfTrim(code: string)
    ensures NormalizeCode(code) == ToUpper(Trim(code))
  {
    UpperTrimStart(code);
    UpperTrimEnd(TrimStart(code));
  }

  /** Upper-casing an upper-cased string changes nothing. */
  lemma UpperIdempotent(s: string)
    ensures ToUpper(ToUpper(s)) == ToUpper(s)
  {
    var u := ToUpper(s);
    assert forall i :: 0 <= i < |u| ==> ToUpper(u)[i] == u[i];
  }

  /** Normalising a normalised code changes nothing. */
  lemma NormalizeIdempotent(code: string)
    ensures NormalizeCode(NormalizeCode(code)) == NormalizeCode(code)
  {
    var n := NormalizeCode(code);
    NormalizeIsUpperOfTrim(n);
    TrimIdempotent(ToUpper(code));
    NormalizeIsUpperOfTrim(code);
    UpperIdempotent(Trim(code));
  }

  /** A normalised code is empty exactly when the typed code is blank. */
  lemma NormalizeEmptyIffBlank(code: string)
    ensures NormalizeCode(code) == [] <==> Trim(code) == []
  {
    NormalizeIsUpperOfTrim(code);
  }
}
