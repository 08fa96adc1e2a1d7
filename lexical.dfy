/** Lexical rules of the grammar: whitespace and comments, literals,
    identifiers and the reserved keywords, integer literals in four bases,
    and the spelling of operators.

    The grammar is scannerless: every token is matched directly on the
    characters of the input and is followed by whitespace skipping. */
module Lexical {
  import opened Syntax

  // ---------------------------------------------------------------------
  // Characters and literals

  /** `dsl::ascii::space`: space, tab, newline, vertical tab, form feed and
      carriage return. */
  predicate IsSpace(c: char) {
    c == ' ' || c == '\t' || c == '\n' || c == '\U{B}' || c == '\U{C}' || c == '\r'
  }

  /** The literal `lit` occurs at position `i` of `s`. */
  predicate LitAt(s: seq<char>, i: nat, lit: seq<char>) {
    i + |lit| <= |s| && s[i..i + |lit|] == lit
  }

  /** The character `c` is at position `i` of `s`. */
  predicate CharAt(s: seq<char>, i: nat, c: char) {
    i < |s| && s[i] == c
  }

  /** The two characters `a` and `b` are at positions `i` and `i + 1`. */
  predicate PairAt(s: seq<char>, i: nat, a: char, b: char) {
    CharAt(s, i, a) && CharAt(s, i + 1, b)
  }

  /** A concatenation occurs where its two parts occur one after the other. */
  lemma SliceConcat(s: seq<char>, i: nat, a: seq<char>, b: seq<char>)
    requires i + |a| + |b| <= |s| && s[i..i + |a| + |b|] == a + b
    ensures s[i..i + |a|] == a && s[i + |a|..i + |a| + |b|] == b
  {
    var e := i + |a| + |b|;
    assert s[i..e][..|a|] == s[i..i + |a|] && (a + b)[..|a|] == a;
    assert s[i..e][|a|..] == s[i + |a|..e] && (a + b)[|a|..] == b;
  }

  // ---------------------------------------------------------------------
  // Whitespace

  /** The position just after the first newline at or after `k`, if any
      (`dsl::until(dsl::newline)`; a line comment that reaches the end of
      the input without a newline does not match). */
  function LineCommentEnd(s: seq<char>, k: nat): (r: Option<nat>)
    requires k <= |s|
    ensures r.Some? ==> k < r.value <= |s|
    decreases |s| - k
  {
    if k == |s| then None
    else if s[k] == '\n' then Some(k + 1)
    else LineCommentEnd(s, k + 1)
  }

  /** A line comment ends at the first newline; none is found exactly when
      no newline follows. */
  lemma {:induction false} LineCommentEndFirst(s: seq<char>, k: nat)
    requires k <= |s|
    ensures var r := LineCommentEnd(s, k);
      && (r.Some? ==> s[r.value - 1] == '\n' && forall m :: k <= m < r.value - 1 ==> s[m] != '\n')
      && (r.None? ==> forall m :: k <= m < |s| ==> s[m] != '\n')
    decreases |s| - k
  {
    if k < |s| && s[k] != '\n' {
      LineCommentEndFirst(s, k + 1);
    }
  }

  // The position just after the first star-slash pair at or after `k`, if
  // any (the `dsl::until` that closes a block comment); an unterminated
  // block comment does not match.
  function BlockCommentEnd(s: seq<char>, k: nat): (r: Option<nat>)
    requires k <= |s|
    ensures r.Some? ==> k + 2 <= r.value <= |s|
    decreases |s| - k
  {
    if k + 2 > |s| then None
    else if PairAt(s, k, '*', '/') then Some(k + 2)
    else BlockCommentEnd(s, k + 1)
  }

  /** A block comment ends at the first star-slash pair; none is found
      exactly when no such pair follows. */
  lemma {:induction false} BlockCommentEndFirst(s: seq<char>, k: nat)
    requires k <= |s|
    ensures var r := BlockCommentEnd(s, k);
      && (r.Some? ==> PairAt(s, r.value - 2, '*', '/') && forall m :: k <= m < r.value - 2 ==> !PairAt(s, m, '*', '/'))
      && (r.None? ==> forall m :: k <= m < |s| ==> !PairAt(s, m, '*', '/'))
    decreases |s| - k
  {
    if !PairAt(s, k, '*', '/') && k + 2 <= |s| {
      BlockCommentEndFirst(s, k + 1);
    }
  }

  /** Skips whitespace and comments from `i`: the whitespace rule of the
      translation unit, applied after every token. Fails only on a comment
      that is not terminated. */
  function Skip(s: seq<char>, i: nat): (r: Option<nat>)
    requires i <= |s|
    ensures r.Some? ==> i <= r.value <= |s| && !StartsWhitespace(s, r.value)
    decreases |s| - i
  {
    if i < |s| && IsSpace(s[i]) then Skip(s, i + 1)
    else if PairAt(s, i, '/', '/') then
      match LineCommentEnd(s, i + 2)
      case Some(j) => Skip(s, j)
      case None => None
    else if PairAt(s, i, '/', '*') then
      match BlockCommentEnd(s, i + 2)
      case Some(j) => Skip(s, j)
      case None => None
    else Some(i)
  }

  /** Whitespace, or the start of a comment, begins at `i`. */
  predicate StartsWhitespace(s: seq<char>, i: nat) {
    (i < |s| && IsSpace(s[i])) || PairAt(s, i, '/', '/') || PairAt(s, i, '/', '*')
  }

  /** Nothing is skipped where no whitespace starts. */
  lemma SkipNothing(s: seq<char>, i: nat)
    requires i <= |s| && !StartsWhitespace(s, i)
    ensures Skip(s, i) == Some(i)
  {
  }

  /** Nothing is skipped before a character that is neither a space nor a
      slash, or at the end of the input. */
  lemma SkipNone(s: seq<char>, i: nat)
    requires i == |s| || (i < |s| && !IsSpace(s[i]) && s[i] != '/')
    ensures !StartsWhitespace(s, i) && Skip(s, i) == Some(i)
  {
    if i + 2 <= |s| {
      assert s[i..i + 2][0] == s[i];
    }
  }

  /** A line comment: `//`, then anything up to and including the first
      newline. */
  predicate LineComment(t: string) {
    |t| >= 3 && t[0] == '/' && t[1] == '/' && t[|t| - 1] == '\n'
    && forall m :: 2 <= m < |t| - 1 ==> t[m] != '\n'
  }

  /** A block comment: a slash-star pair, then anything up to and
      including the first star-slash pair after it. */
  predicate BlockComment(t: string) {
    |t| >= 4 && t[0] == '/' && t[1] == '*' && t[|t| - 2] == '*' && t[|t| - 1] == '/'
    && forall m :: 2 <= m < |t| - 2 ==> !(t[m] == '*' && t[m + 1] == '/')
  }

  /** One piece of whitespace: a space character or a complete comment. */
  predicate BlankItem(t: string) {
    (|t| == 1 && IsSpace(t[0])) || LineComment(t) || BlockComment(t)
  }

  /** Nothing but spaces and complete comments. */
  predicate Blank(t: string)
    decreases |t|
  {
    t == [] || exists n :: 0 < n <= |t| && BlankItem(t[..n]) && Blank(t[n..])
  }

  /** A comment starts at `j` and is never closed. */
  predicate Unterminated(s: seq<char>, j: nat) {
    (PairAt(s, j, '/', '/') && forall m :: j + 2 <= m < |s| ==> s[m] != '\n')
    || (PairAt(s, j, '/', '*') && forall m :: j + 2 <= m < |s| ==> !PairAt(s, m, '*', '/'))
  }

  /** A piece of whitespace followed by blank text is blank. */
  lemma BlankCons(s: seq<char>, i: nat, k: nat, j: nat)
    requires i < k <= j <= |s| && BlankItem(s[i..k]) && Blank(s[k..j])
    ensures Blank(s[i..j])
  {
    var t := s[i..j];
    assert t[..k - i] == s[i..k] && t[k - i..] == s[k..j];
  }

  /** What `Skip` passes over is blank; where it fails, an unterminated
      comment follows blank text. */
  lemma {:induction false} SkipSound(s: seq<char>, i: nat)
    requires i <= |s|
    ensures Skip(s, i).Some? ==> Blank(s[i..Skip(s, i).value])
    ensures Skip(s, i).None? ==> exists j :: i <= j <= |s| && Blank(s[i..j]) && Unterminated(s, j)
    decreases |s| - i
  {
    if i < |s| && IsSpace(s[i]) {
      SkipSound(s, i + 1);
      assert BlankItem(s[i..i + 1]);
      match Skip(s, i + 1)
      case Some(r) =>
        BlankCons(s, i, i + 1, r);
      case None =>
        var j :| i + 1 <= j <= |s| && Blank(s[i + 1..j]) && Unterminated(s, j);
        BlankCons(s, i, i + 1, j);
    } else if PairAt(s, i, '/', '/') {
      LineCommentEndFirst(s, i + 2);
      match LineCommentEnd(s, i + 2)
      case Some(k) =>
        assert LineComment(s[i..k]);
        SkipSound(s, k);
        if Skip(s, k).Some? {
          BlankCons(s, i, k, Skip(s, k).value);
        } else {
          var j :| k <= j <= |s| && Blank(s[k..j]) && Unterminated(s, j);
          BlankCons(s, i, k, j);
        }
      case None =>
        assert Blank(s[i..i]) && Unterminated(s, i);
    } else if PairAt(s, i, '/', '*') {
      BlockCommentEndFirst(s, i + 2);
      match BlockCommentEnd(s, i + 2)
      case Some(k) =>
        assert BlockComment(s[i..k]) by {
          forall m | 2 <= m < k - i - 2
            ensures !(s[i..k][m] == '*' && s[i..k][m + 1] == '/')
          {
            assert !PairAt(s, i + m, '*', '/');
          }
        }
        SkipSound(s, k);
        if Skip(s, k).Some? {
          BlankCons(s, i, k, Skip(s, k).value);
        } else {
          var j :| k <= j <= |s| && Blank(s[k..j]) && Unterminated(s, j);
          BlankCons(s, i, k, j);
        }
      case None =>
        assert Blank(s[i..i]) && Unterminated(s, i);
    } else {
      assert Blank(s[i..i]);
    }
  }

  /** Skipping a piece of whitespace goes on where the piece ends. */
  lemma ItemSkip(s: seq<char>, i: nat, k: nat)
    requires i < k <= |s| && BlankItem(s[i..k])
    ensures Skip(s, i) == Skip(s, k)
  {
    var t := s[i..k];
    assert t[0] == s[i];
    if LineComment(t) {
      assert s[i + 1] == t[1] && s[k - 1] == t[|t| - 1];
      forall m | i + 2 <= m < k - 1
        ensures s[m] != '\n'
      {
        assert s[m] == t[m - i];
      }
      LineCommentEndFirst(s, i + 2);
    } else if BlockComment(t) {
      assert s[i + 1] == t[1] && s[k - 2] == t[|t| - 2] && s[k - 1] == t[|t| - 1];
      forall m | i + 2 <= m < k - 2
        ensures !PairAt(s, m, '*', '/')
      {
        assert s[m] == t[m - i] && s[m + 1] == t[m + 1 - i];
      }
      assert PairAt(s, k - 2, '*', '/');
      BlockCommentEndFirst(s, i + 2);
      assert BlockCommentEnd(s, i + 2) == Some(k);
      assert !PairAt(s, i, '/', '/') && PairAt(s, i, '/', '*');
    }
  }

  /** `Skip` stops at once where no whitespace starts, and fails at once on
      an unterminated comment. */
  lemma SkipAt(s: seq<char>, j: nat)
    requires j <= |s|
    ensures !StartsWhitespace(s, j) ==> Skip(s, j) == Some(j)
    ensures Unterminated(s, j) ==> Skip(s, j) == None
  {
    if PairAt(s, j, '/', '/') {
      LineCommentEndFirst(s, j + 2);
    } else if PairAt(s, j, '/', '*') {
      BlockCommentEndFirst(s, j + 2);
    }
  }

  /** Conversely, `Skip` passes over any blank text up to the first place
      where no whitespace starts, and fails when an unterminated comment
      follows blank text. */
  lemma {:induction false} SkipComplete(s: seq<char>, i: nat, j: nat)
    requires i <= j <= |s| && Blank(s[i..j])
    ensures !StartsWhitespace(s, j) ==> Skip(s, i) == Some(j)
    ensures Unterminated(s, j) ==> Skip(s, i) == None
    decreases j - i
  {
    if i == j {
      SkipAt(s, j);
    } else {
      var k := BlankSplit(s, i, j);
      ItemSkip(s, i, k);
      SkipComplete(s, k, j);
    }
  }

  /** Blank text that is not empty starts with a piece of whitespace. */
  lemma BlankSplit(s: seq<char>, i: nat, j: nat) returns (k: nat)
    requires i < j <= |s| && Blank(s[i..j])
    ensures i < k <= j && BlankItem(s[i..k]) && Blank(s[k..j])
  {
    var t := s[i..j];
    var n :| 0 < n <= |t| && BlankItem(t[..n]) && Blank(t[n..]);
    k := i + n;
    assert BlankItem(s[i..k]) by { assert t[..n] == s[i..k]; }
    assert Blank(s[k..j]) by { assert t[n..] == s[k..j]; }
  }

  // ---------------------------------------------------------------------
  // Identifiers and keywords

  /** Identifier characters, restricted to ASCII. */
  predicate IsLetter(c: char) { ('a' <= c <= 'z') || ('A' <= c <= 'Z') }
  predicate IsDecimalDigit(c: char) { '0' <= c <= '9' }
  predicate IsIdentStart(c: char) { IsLetter(c) || c == '_' }
  predicate IsIdentContinue(c: char) { IsLetter(c) || IsDecimalDigit(c) || c == '_' }

  /** The spellings reserved by `kw_builtin_types` and `kw_builtin_stmts`. */
  const KwInt: string := "int"
  const KwPrint: string := "__clauf_print"
  const KwAssert: string := "__clauf_assert"

  predicate IsReserved(name: string) {
    name == KwInt || name == KwPrint || name == KwAssert
  }

  /** The end of the longest run of identifier characters from `j`. */
  function IdentEnd(s: seq<char>, j: nat): (r: nat)
    requires j <= |s|
    ensures j <= r <= |s|
    ensures forall m :: j <= m < r ==> IsIdentContinue(s[m])
    ensures r == |s| || !IsIdentContinue(s[r])
    decreases |s| - j
  {
    if j < |s| && IsIdentContinue(s[j]) then IdentEnd(s, j + 1) else j
  }

  /** A valid identifier spelling: an identifier start, identifier
      characters, and not a reserved keyword. */
  predicate IsName(name: string) {
    |name| > 0 && IsIdentStart(name[0])
    && (forall m :: 1 <= m < |name| ==> IsIdentContinue(name[m]))
    && !IsReserved(name)
  }

  datatype NameResult = NameOk(name: string, pos: nat) | NameReserved | NameFailed

  /** The `name` rule at an identifier start: the whole identifier is read;
      a reserved spelling is an error, not a fallback; whitespace is
      skipped after it. */
  function ParseName(s: seq<char>, i: nat): (r: NameResult)
    requires i < |s| && IsIdentStart(s[i])
    ensures r.NameOk? ==> i < r.pos <= |s| && IsName(r.name)
    ensures r.NameOk? ==> r.name == s[i..IdentEnd(s, i + 1)]
    ensures r.NameReserved? <==> IsReserved(s[i..IdentEnd(s, i + 1)])
  {
    var j := IdentEnd(s, i + 1);
    var name := s[i..j];
    if IsReserved(name) then NameReserved
    else
      match Skip(s, j)
      case Some(k) => NameOk(name, k)
      case None => NameFailed
  }

  /** The identifier scan stops exactly at the end of a run of identifier
      characters. */
  lemma {:induction false} IdentEndAt(s: seq<char>, j: nat, e: nat)
    requires j <= e <= |s|
    requires forall m :: j <= m < e ==> IsIdentContinue(s[m])
    requires e == |s| || !IsIdentContinue(s[e])
    ensures IdentEnd(s, j) == e
    decreases e - j
  {
    if j < e { IdentEndAt(s, j + 1, e); }
  }

  /** A valid name followed by a character that cannot continue it, and by
      no whitespace, is read as that name. */
  lemma NameAt(s: seq<char>, i: nat, n: string)
    requires IsName(n) && LitAt(s, i, n)
    requires i + |n| == |s| || !IsIdentContinue(s[i + |n|])
    requires !StartsWhitespace(s, i + |n|)
    ensures i < |s| && IsIdentStart(s[i])
    ensures ParseName(s, i) == NameOk(n, i + |n|)
  {
    var j := i + |n|;
    assert s[i] == n[0] by { assert s[i..j][0] == s[i]; }
    forall m | i + 1 <= m < j ensures IsIdentContinue(s[m]) {
      assert s[m] == s[i..j][m - i];
    }
    IdentEndAt(s, i + 1, j);
    SkipNothing(s, j);
  }

  // ---------------------------------------------------------------------
  // Integer literals

  /** The value of a hexadecimal digit character, or 16 for any other
      character. */
  function DigitValue(c: char): (d: nat)
    ensures d <= 16
    ensures d < 10 <==> IsDecimalDigit(c)
  {
    if '0' <= c <= '9' then c as nat - '0' as nat
    else if 'a' <= c <= 'f' then c as nat - 'a' as nat + 10
    else if 'A' <= c <= 'F' then c as nat - 'A' as nat + 10
    else 16
  }

  predicate IsDigitOf(c: char, base: nat) { DigitValue(c) < base }

  predicate IsBase(base: nat) { base == 2 || base == 8 || base == 10 || base == 16 }

  /** The largest value of `std::uint64_t`. */
  const MaxU64: nat := 0xFFFF_FFFF_FFFF_FFFF

  /** The end of `dsl::digits<Base>.sep(dsl::digit_sep_tick)` starting at
      `j`, just after a digit: more digits, each separator followed by a
      digit; a separator not followed by a digit is an error. */
  function DigitRunEnd(s: seq<char>, j: nat, base: nat): (r: Option<nat>)
    requires j <= |s|
    ensures r.Some? ==> j <= r.value <= |s|
    ensures r.Some? ==> r.value == |s| || (!IsDigitOf(s[r.value], base) && s[r.value] != '\'')
    ensures r.Some? ==> SeparatedDigits(s, j, r.value, base)
    decreases |s| - j
  {
    if j < |s| && IsDigitOf(s[j], base) then
      var r := DigitRunEnd(s, j + 1, base);
      if r.Some? then SeparatedDigitsCons(s, j, r.value, base, 1); r else r
    else if j < |s| && s[j] == '\'' then
      if j + 1 < |s| && IsDigitOf(s[j + 1], base) then
        var r := DigitRunEnd(s, j + 2, base);
        if r.Some? then SeparatedDigitsCons(s, j, r.value, base, 2); r else r
      else None
    else Some(j)
  }

  /** Every character in `[j, r)` is a digit, or a `'` with a digit right
      after it. */
  predicate SeparatedDigits(s: seq<char>, j: nat, r: nat, base: nat)
    requires j <= r <= |s|
  {
    forall m :: j <= m < r ==> DigitOrTick(s, m, r, base)
  }

  /** The character at `m` is a digit, or a `'` with a digit right after
      it, before `r`. */
  predicate DigitOrTick(s: seq<char>, m: nat, r: nat, base: nat)
    requires m < r <= |s|
  {
    IsDigitOf(s[m], base) || (s[m] == '\'' && m + 1 < r && IsDigitOf(s[m + 1], base))
  }

  /** A digit, or a `'` and a digit, before well-separated digits. */
  lemma SeparatedDigitsCons(s: seq<char>, j: nat, r: nat, base: nat, step: nat)
    requires (step == 1 || step == 2) && j + step <= r <= |s|
    requires step == 1 ==> IsDigitOf(s[j], base)
    requires step == 2 ==> s[j] == '\'' && IsDigitOf(s[j + 1], base)
    requires SeparatedDigits(s, j + step, r, base)
    ensures SeparatedDigits(s, j, r, base)
  {
    forall m | j <= m < r
      ensures DigitOrTick(s, m, r, base)
    {
    }
  }

  /** Well-separated digits start with a digit, or with a `'` and a digit,
      and go on well separated. */
  lemma SeparatedDigitsTail(s: seq<char>, j: nat, r: nat, base: nat)
    requires j < r <= |s| && SeparatedDigits(s, j, r, base)
    ensures IsDigitOf(s[j], base) ==> SeparatedDigits(s, j + 1, r, base)
    ensures !IsDigitOf(s[j], base) ==>
      s[j] == '\'' && j + 1 < r && IsDigitOf(s[j + 1], base) && SeparatedDigits(s, j + 2, r, base)
  {
    assert DigitOrTick(s, j, r, base);
  }

  /** A `'` at `m` with no digit right after it. */
  predicate DanglingSeparator(s: seq<char>, m: nat, base: nat) {
    m < |s| && s[m] == '\'' && !IsDigitOf(s[m], base) && !(m + 1 < |s| && IsDigitOf(s[m + 1], base))
  }

  /** A digit run fails only on a `'` with no digit after it, reached
      through well-separated digits. */
  lemma {:induction false} DigitRunEndFails(s: seq<char>, j: nat, base: nat)
    requires j <= |s| && DigitRunEnd(s, j, base).None?
    ensures exists m :: j <= m <= |s| && SeparatedDigits(s, j, m, base) && DanglingSeparator(s, m, base)
    decreases |s| - j
  {
    if j < |s| && IsDigitOf(s[j], base) {
      DigitRunEndFails(s, j + 1, base);
      var m :| j + 1 <= m <= |s| && SeparatedDigits(s, j + 1, m, base) && DanglingSeparator(s, m, base);
      SeparatedDigitsCons(s, j, m, base, 1);
    } else if j + 1 < |s| && s[j] == '\'' && IsDigitOf(s[j + 1], base) {
      DigitRunEndFails(s, j + 2, base);
      var m :| j + 2 <= m <= |s| && SeparatedDigits(s, j + 2, m, base) && DanglingSeparator(s, m, base);
      SeparatedDigitsCons(s, j, m, base, 2);
    } else {
      assert SeparatedDigits(s, j, j, base) && DanglingSeparator(s, j, base);
    }
  }

  /** Conversely, a digit run ends at the first position after
      well-separated digits that neither is a digit nor a `'`, and fails on
      a `'` with no digit after it. */
  lemma {:induction false} DigitRunEndComplete(s: seq<char>, j: nat, r: nat, base: nat)
    requires j <= r <= |s| && SeparatedDigits(s, j, r, base)
    ensures (r == |s| || (!IsDigitOf(s[r], base) && s[r] != '\'')) ==> DigitRunEnd(s, j, base) == Some(r)
    ensures DanglingSeparator(s, r, base) ==> DigitRunEnd(s, j, base) == None
    decreases r - j
  {
    if j < r {
      SeparatedDigitsTail(s, j, r, base);
      if IsDigitOf(s[j], base) {
        DigitRunEndComplete(s, j + 1, r, base);
      } else {
        DigitRunEndComplete(s, j + 2, r, base);
      }
    }
  }

  /** The value of a digit sequence in `base`, separators ignored. */
  function ValueOf(t: seq<char>, base: nat): (v: nat)
    ensures DigitText(t, base) ==> v < Power(base, |t|)
    decreases |t|
  {
    if t == [] then 0
    else
      var init := t[..|t| - 1];
      var last := t[|t| - 1];
      var v := ValueOf(init, base);
      var r := if last == '\'' then v else v * base + DigitValue(last);
      if DigitText(t, base) then
        assert DigitText(init, base) by {
          assert forall m :: 0 <= m < |init| ==> init[m] == t[m];
        }
        BoundStep(t, base, v);
        r
      else r
  }

  /** Digits of `base` and separators only, in a base of at least two. */
  predicate DigitText(t: seq<char>, base: nat) {
    2 <= base && forall m :: 0 <= m < |t| ==> IsDigitOf(t[m], base) || t[m] == '\''
  }

  /** One more digit multiplies the bound by `base`; a separator keeps the
      value. */
  lemma BoundStep(t: seq<char>, base: nat, v: nat)
    requires |t| > 0 && DigitText(t, base) && v < Power(base, |t| - 1)
    ensures t[|t| - 1] == '\'' ==> v < Power(base, |t|)
    ensures t[|t| - 1] != '\'' ==> v * base + DigitValue(t[|t| - 1]) < Power(base, |t|)
  {
    var p := Power(base, |t| - 1);
    assert Power(base, |t|) == base * p;
    if t[|t| - 1] != '\'' {
      DigitBound(v, DigitValue(t[|t| - 1]), base, p);
    }
  }

  /** `base` raised to `n`. */
  function Power(base: nat, n: nat): nat {
    if n == 0 then 1 else base * Power(base, n - 1)
  }

  /** Appending a digit to a value below `p` gives a value below
      `p * base`. */
  lemma DigitBound(v: nat, d: nat, base: nat, p: nat)
    requires v < p && d < base
    ensures v * base + d < base * p
  {
    assert v * base <= (p - 1) * base;
  }

  datatype Literal = Literal(value: nat, end: nat)

  /** `dsl::integer<std::uint64_t>` over the digits at `k`: at least one
      digit; the value must fit in 64 bits. */
  function Digits(s: seq<char>, k: nat, base: nat): (r: Option<Literal>)
    requires k <= |s|
    ensures r.Some? ==> k < r.value.end <= |s| && r.value.value <= MaxU64
    ensures r.Some? ==> r.value.value == ValueOf(s[k..r.value.end], base)
  {
    if k < |s| && IsDigitOf(s[k], base) then
      match DigitRunEnd(s, k + 1, base)
      case Some(j) =>
        var v := ValueOf(s[k..j], base);
        if v <= MaxU64 then Some(Literal(v, j)) else None
      case None => None
    else None
  }

  /** `integer_constant_expr`: a literal starting with `0` is hexadecimal
      after `0x`/`0X`, binary after `0b`/`0B`, and octal otherwise; any
      other literal is decimal. The prefixes are tokens of their own, so
      whitespace may follow them. The end is before trailing whitespace. */
  function IntegerLiteral(s: seq<char>, i: nat): (r: Option<Literal>)
    requires i <= |s|
    ensures r.Some? ==> i < r.value.end <= |s| && r.value.value <= MaxU64
  {
    if CharAt(s, i, '0') then
      if PairAt(s, i, '0', 'x') || PairAt(s, i, '0', 'X') then
        match Skip(s, i + 2)
        case Some(k) => Digits(s, k, 16)
        case None => None
      else if PairAt(s, i, '0', 'b') || PairAt(s, i, '0', 'B') then
        match Skip(s, i + 2)
        case Some(k) => Digits(s, k, 2)
        case None => None
      else Digits(s, i, 8)
    else Digits(s, i, 10)
  }

  /** The digits of a literal with the separators removed. */
  function Untick(t: seq<char>): (u: seq<char>)
    ensures '\'' !in u
    decreases |t|
  {
    if t == [] then []
    else if t[|t| - 1] == '\'' then Untick(t[..|t| - 1])
    else Untick(t[..|t| - 1]) + [t[|t| - 1]]
  }

  /** Digit separators do not contribute to the value. */
  lemma {:induction false} ValueOfUntick(t: seq<char>, base: nat)
    ensures ValueOf(t, base) == ValueOf(Untick(t), base)
    decreases |t|
  {
    if t != [] {
      ValueOfUntick(t[..|t| - 1], base);
      if t[|t| - 1] != '\'' {
        var u := Untick(t[..|t| - 1]) + [t[|t| - 1]];
        assert u[..|u| - 1] == Untick(t[..|t| - 1]);
      }
    }
  }

  /** A leading zero does not change the value. */
  lemma {:induction false} ValueOfLeadingZero(t: seq<char>, base: nat)
    ensures ValueOf(['0'] + t, base) == ValueOf(t, base)
    decreases |t|
  {
    if t == [] {
      assert (['0'] + t)[..0] == [];
    } else {
      ValueOfLeadingZero(t[..|t| - 1], base);
      assert (['0'] + t)[..|t|] == ['0'] + t[..|t| - 1];
    }
  }

  /** The character of a digit value, lower-case for hexadecimal. */
  function DigitChar(d: nat): (c: char)
    requires d < 16
    ensures DigitValue(c) == d
  {
    if d < 10 then ('0' as nat + d) as char else ('a' as nat + d - 10) as char
  }

  /** The digits of `n` in `base`, most significant first, without leading
      zeros. */
  function ToDigits(n: nat, base: nat): (t: string)
    requires 2 <= base <= 16
    ensures |t| > 0 && (forall m :: 0 <= m < |t| ==> IsDigitOf(t[m], base))
    ensures n > 0 ==> t[0] != '0'
    decreases n
  {
    if n < base then [DigitChar(n)]
    else
      DivStep(n, base);
      ToDigits(n / base, base) + [DigitChar(n % base)]
  }

  /** One step of writing `n` in `base`. */
  lemma DivStep(n: nat, base: nat)
    requires 2 <= base && base <= n
    ensures 0 < n / base < n && n % base < base
    ensures n == (n / base) * base + n % base
  {
    assert n == base * (n / base) + n % base;
  }

  lemma {:induction false} ValueOfToDigits(n: nat, base: nat)
    requires 2 <= base <= 16
    ensures ValueOf(ToDigits(n, base), base) == n
    decreases n
  {
    var t := ToDigits(n, base);
    if n < base {
      assert t[..0] == [];
    } else {
      DivStep(n, base);
      ValueOfToDigits(n / base, base);
      assert t[..|t| - 1] == ToDigits(n / base, base);
      assert t[|t| - 1] == DigitChar(n % base);
      assert ValueOf(t, base) == ValueOf(ToDigits(n / base, base), base) * base + DigitValue(DigitChar(n % base));
    }
  }

  /** A run of digits followed by a character that neither continues nor
      separates it ends where that character is. */
  lemma {:induction false} DigitRunEndAt(s: seq<char>, j: nat, e: nat, base: nat)
    requires j <= e <= |s|
    requires forall m :: j <= m < e ==> IsDigitOf(s[m], base)
    requires e == |s| || (!IsDigitOf(s[e], base) && s[e] != '\'')
    ensures DigitRunEnd(s, j, base) == Some(e)
    decreases e - j
  {
    if j < e {
      DigitRunEndAt(s, j + 1, e, base);
    }
  }

  /** How a value is written as a literal of each base. */
  function LiteralText(n: nat, base: nat): string
    requires IsBase(base)
  {
    if base == 16 then "0x" + ToDigits(n, 16)
    else if base == 2 then "0b" + ToDigits(n, 2)
    else if base == 8 then "0" + ToDigits(n, 8)
    else ToDigits(n, 10)
  }

  /** A literal occurs where its characters occur one by one. */
  lemma LitAtChars(s: seq<char>, i: nat, lit: seq<char>)
    requires i + |lit| <= |s| && forall m :: 0 <= m < |lit| ==> s[i + m] == lit[m]
    ensures LitAt(s, i, lit)
  {
    assert s[i..i + |lit|] == lit;
  }

  /** The digits `d` at `k`, followed by what cannot continue them, are read
      as their value. */
  lemma DigitsAt(s: seq<char>, k: nat, d: string, base: nat)
    requires |d| > 0 && (forall m :: 0 <= m < |d| ==> IsDigitOf(d[m], base)) && LitAt(s, k, d)
    requires k + |d| == |s| || (!IsDigitOf(s[k + |d|], base) && s[k + |d|] != '\'')
    requires ValueOf(d, base) <= MaxU64
    ensures Digits(s, k, base) == Some(Literal(ValueOf(d, base), k + |d|))
  {
    var e := k + |d|;
    forall m | k <= m < e ensures IsDigitOf(s[m], base) {
      assert s[m] == s[k..e][m - k] == d[m - k];
    }
    DigitRunEndAt(s, k + 1, e, base);
  }

  /** Reading back a literal, written in any base, yields its value and
      ends right after it, provided what follows cannot continue a token. */
  lemma IntegerLiteralRoundTrip(s: seq<char>, i: nat, n: nat, base: nat)
    requires IsBase(base) && n <= MaxU64
    requires LitAt(s, i, LiteralText(n, base)) && EndsToken(s, i + |LiteralText(n, base)|)
    ensures IntegerLiteral(s, i) == Some(Literal(n, i + |LiteralText(n, base)|))
  {
    if base == 16 || base == 2 {
      PrefixedRoundTrip(s, i, n, base);
    } else if base == 8 || n == 0 {
      OctalRoundTrip(s, i, n, base);
    } else {
      var d := ToDigits(n, 10);
      ValueOfToDigits(n, 10);
      DecimalDigits(s, i, d);
      IntegerLiteralDecimal(s, i);
    }
  }

  lemma PrefixedRoundTrip(s: seq<char>, i: nat, n: nat, base: nat)
    requires (base == 16 || base == 2) && n <= MaxU64
    requires LitAt(s, i, LiteralText(n, base)) && EndsToken(s, i + |LiteralText(n, base)|)
    ensures IntegerLiteral(s, i) == Some(Literal(n, i + |LiteralText(n, base)|))
  {
    var d := ToDigits(n, base);
    ValueOfToDigits(n, base);
    PrefixedLiteralRead(s, i, if base == 16 then 'x' else 'b', d, base);
  }

  /** A hexadecimal or binary literal is read whatever the case of its
      prefix letter and of its digits: `0x`/`0X` or `0b`/`0B`, then digits
      of the base, yields their value. */
  lemma PrefixedLiteralRead(s: seq<char>, i: nat, x: char, d: string, base: nat)
    requires (base == 16 && (x == 'x' || x == 'X')) || (base == 2 && (x == 'b' || x == 'B'))
    requires |d| > 0 && forall m :: 0 <= m < |d| ==> IsDigitOf(d[m], base)
    requires ValueOf(d, base) <= MaxU64
    requires LitAt(s, i, ['0', x] + d) && EndsToken(s, i + 2 + |d|)
    ensures IntegerLiteral(s, i) == Some(Literal(ValueOf(d, base), i + 2 + |d|))
  {
    PrefixedDigits(s, i, x, d, base);
    if base == 16 {
      IntegerLiteralHex(s, i);
    } else {
      IntegerLiteralBinary(s, i);
    }
  }

  /** An upper-case prefix and mixed-case digits: `0XfF` is 255. */
  lemma UpperHexExample()
    ensures IntegerLiteral("0XfF;", 0) == Some(Literal(255, 4))
  {
    assert ValueOf("fF", 16) == 255 by { assert "fF"[..1] == "f" && "f"[..0] == []; }
    PrefixedLiteralRead("0XfF;", 0, 'X', "fF", 16);
  }

  /** An upper-case binary prefix: `0B101` is 5. */
  lemma UpperBinaryExample()
    ensures IntegerLiteral("0B101;", 0) == Some(Literal(5, 5))
  {
    assert ValueOf("101", 2) == 5 by { assert "101"[..2] == "10" && "10"[..1] == "1" && "1"[..0] == []; }
    PrefixedLiteralRead("0B101;", 0, 'B', "101", 2);
  }

  lemma OctalRoundTrip(s: seq<char>, i: nat, n: nat, base: nat)
    requires (base == 8 || (base == 10 && n == 0)) && n <= MaxU64
    requires LitAt(s, i, LiteralText(n, base)) && EndsToken(s, i + |LiteralText(n, base)|)
    ensures IntegerLiteral(s, i) == Some(Literal(n, i + |LiteralText(n, base)|))
  {
    var t := LiteralText(n, base);
    OctalText(n, base);
    OctalStart(s, i, t);
    OctalDigits(s, i, t);
    IntegerLiteralOctal(s, i);
  }

  /** An octal literal, and the decimal literal `0`, are a `0` followed by
      octal digits. */
  lemma OctalText(n: nat, base: nat)
    requires base == 8 || (base == 10 && n == 0)
    ensures var t := LiteralText(n, base);
      && |t| > 0 && t[0] == '0' && (forall m :: 0 <= m < |t| ==> IsDigitOf(t[m], 8))
      && ValueOf(t, 8) == n
  {
    var t := LiteralText(n, base);
    if base == 8 {
      var d := ToDigits(n, 8);
      ValueOfToDigits(n, 8);
      ValueOfLeadingZero(d, 8);
      assert t == ['0'] + d;
      forall m | 0 <= m < |t| ensures IsDigitOf(t[m], 8) {
        if m > 0 { assert t[m] == d[m - 1]; }
      }
    } else {
      assert t == ['0'];
      assert t[..0] == [];
    }
  }

  /** The character after a literal: the end of the input, or a character
      that neither continues an identifier nor separates digits. */
  predicate EndsToken(s: seq<char>, e: nat) {
    e < |s| ==> !IsIdentContinue(s[e]) && s[e] != '\''
  }

  /** A character that is no identifier character is no digit of any base. */
  lemma NotDigit(c: char, base: nat)
    requires !IsIdentContinue(c) && base <= 16
    ensures !IsDigitOf(c, base)
  {
  }

  // The four branches of `IntegerLiteral`.

  lemma IntegerLiteralHex(s: seq<char>, i: nat)
    requires CharAt(s, i, '0') && (PairAt(s, i, '0', 'x') || PairAt(s, i, '0', 'X')) && Skip(s, i + 2) == Some(i + 2)
    ensures IntegerLiteral(s, i) == Digits(s, i + 2, 16)
  {
  }

  lemma IntegerLiteralBinary(s: seq<char>, i: nat)
    requires CharAt(s, i, '0') && (PairAt(s, i, '0', 'b') || PairAt(s, i, '0', 'B'))
    requires !PairAt(s, i, '0', 'x') && !PairAt(s, i, '0', 'X')
    requires Skip(s, i + 2) == Some(i + 2)
    ensures IntegerLiteral(s, i) == Digits(s, i + 2, 2)
  {
  }

  lemma IntegerLiteralOctal(s: seq<char>, i: nat)
    requires CharAt(s, i, '0')
    requires !PairAt(s, i, '0', 'x') && !PairAt(s, i, '0', 'X') && !PairAt(s, i, '0', 'b') && !PairAt(s, i, '0', 'B')
    ensures IntegerLiteral(s, i) == Digits(s, i, 8)
  {
  }

  lemma IntegerLiteralDecimal(s: seq<char>, i: nat)
    requires i <= |s| && !CharAt(s, i, '0')
    ensures IntegerLiteral(s, i) == Digits(s, i, 10)
  {
  }

  /** `0x` or `0b`, then digits. */
  lemma PrefixedDigits(s: seq<char>, i: nat, x: char, d: string, base: nat)
    requires (base == 16 && (x == 'x' || x == 'X')) || (base == 2 && (x == 'b' || x == 'B'))
    requires |d| > 0 && forall m :: 0 <= m < |d| ==> IsDigitOf(d[m], base)
    requires ValueOf(d, base) <= MaxU64
    requires LitAt(s, i, ['0', x] + d) && EndsToken(s, i + 2 + |d|)
    ensures PairAt(s, i, '0', x) && Skip(s, i + 2) == Some(i + 2)
    ensures base == 2 ==> !PairAt(s, i, '0', 'x') && !PairAt(s, i, '0', 'X')
    ensures Digits(s, i + 2, base) == Some(Literal(ValueOf(d, base), i + 2 + |d|))
  {
    var e := i + 2 + |d|;
    var lit := ['0', x] + d;
    assert lit[0] == '0' && lit[1] == x && s[i..e] == lit;
    assert s[i] == '0' && s[i + 1] == x;
    assert s[i + 2..e] == s[i..e][2..] == d;
    assert s[i + 2] == s[i..e][2] == d[0] && IsDigitOf(d[0], base);
    assert !IsSpace(s[i + 2]) && s[i + 2] != '/';
    SkipNothing(s, i + 2);
    if e < |s| {
      NotDigit(s[e], base);
    }
    DigitsAt(s, i + 2, d, base);
  }

  /** `0`, then octal digits: the digits, `0` included. */
  lemma OctalDigits(s: seq<char>, i: nat, t: string)
    requires |t| > 0 && forall m :: 0 <= m < |t| ==> IsDigitOf(t[m], 8)
    requires ValueOf(t, 8) <= MaxU64
    requires LitAt(s, i, t) && EndsToken(s, i + |t|)
    ensures Digits(s, i, 8) == Some(Literal(ValueOf(t, 8), i + |t|))
  {
    if i + |t| < |s| {
      NotDigit(s[i + |t|], 8);
    }
    DigitsAt(s, i, t, 8);
  }

  /** `0`, then octal digits: no prefix follows the `0`. */
  lemma OctalStart(s: seq<char>, i: nat, t: string)
    requires |t| > 0 && t[0] == '0' && forall m :: 0 <= m < |t| ==> IsDigitOf(t[m], 8)
    requires LitAt(s, i, t) && EndsToken(s, i + |t|)
    ensures CharAt(s, i, '0')
    ensures !PairAt(s, i, '0', 'x') && !PairAt(s, i, '0', 'X') && !PairAt(s, i, '0', 'b') && !PairAt(s, i, '0', 'B')
  {
    var e := i + |t|;
    assert s[i] == s[i..e][0] == '0';
    forall m | i < m < e ensures IsDigitOf(s[m], 8) {
      assert s[m] == s[i..e][m - i] == t[m - i];
    }
    OctalNotPrefixed(s, i, e);
  }

  /** A `0` followed by an octal digit or by the end of a token starts no
      `0x` or `0b` prefix. */
  lemma OctalNotPrefixed(s: seq<char>, i: nat, e: nat)
    requires i < e <= |s| && forall m :: i < m < e ==> IsDigitOf(s[m], 8)
    requires EndsToken(s, e)
    ensures !PairAt(s, i, '0', 'x') && !PairAt(s, i, '0', 'X') && !PairAt(s, i, '0', 'b') && !PairAt(s, i, '0', 'B')
  {
    if i + 2 <= |s| {
      assert s[i..i + 2][1] == s[i + 1];
      if i + 1 == e {
        NotDigit(s[e], 8);
      }
      assert !IsLetter(s[i + 1]);
    }
  }

  /** A non-zero digit, then decimal digits. */
  lemma DecimalDigits(s: seq<char>, i: nat, d: string)
    requires |d| > 0 && d[0] != '0' && forall m :: 0 <= m < |d| ==> IsDigitOf(d[m], 10)
    requires ValueOf(d, 10) <= MaxU64
    requires LitAt(s, i, d) && EndsToken(s, i + |d|)
    ensures !CharAt(s, i, '0')
    ensures Digits(s, i, 10) == Some(Literal(ValueOf(d, 10), i + |d|))
  {
    var e := i + |d|;
    assert s[i] == s[i..e][0] == d[0];
    assert !CharAt(s, i, '0');
    if e < |s| {
      NotDigit(s[e], 10);
    }
    DigitsAt(s, i, d, 10);
  }

  /** A hexadecimal literal with an upper-case digit. */
  lemma HexExample()
    ensures IntegerLiteral("0x1F;", 0) == Some(Literal(31, 4))
  {
    var s := "0x1F;";
    assert s[0] == '0' && s[1] == 'x' && s[2] == '1';
    SkipNothing(s, 2);
    assert ValueOf("1F", 16) == 31 by { assert "1F"[..1] == "1" && "1"[..0] == []; }
    DigitsAt(s, 2, "1F", 16);
  }

  lemma BinaryExample()
    ensures IntegerLiteral("0b101;", 0) == Some(Literal(5, 5))
  {
    var s := "0b101;";
    assert s[0] == '0' && s[1] == 'b' && s[2] == '1';
    SkipNothing(s, 2);
    assert ValueOf("101", 2) == 5 by { assert "101"[..2] == "10" && "10"[..1] == "1" && "1"[..0] == []; }
    assert LitAt(s, 2, "101") by { assert s[2..5] == "101"; }
    assert forall m :: 0 <= m < 3 ==> IsDigitOf("101"[m], 2);
    DigitsAt(s, 2, "101", 2);
  }

  /** A leading zero makes a literal octal. */
  lemma OctalExample()
    ensures IntegerLiteral("017;", 0) == Some(Literal(15, 3))
  {
    var s := "017;";
    assert s[0] == '0' && s[1] == '1';
    assert ValueOf("017", 8) == 15 by { assert "017"[..2] == "01" && "01"[..1] == "0" && "0"[..0] == []; }
    DigitsAt(s, 0, "017", 8);
  }

  /** A separator between digits is skipped; one at the end is an error. */
  lemma SeparatorExamples()
    ensures IntegerLiteral("1'000;", 0) == Some(Literal(1000, 5))
    ensures IntegerLiteral("1';", 0) == None
  {
    var s := "1'000;";
    assert s[0] == '1';
    assert ValueOf("1'000", 10) == 1000 by {
      assert "1'000"[..4] == "1'00" && "1'00"[..3] == "1'0" && "1'0"[..2] == "1'" && "1'"[..1] == "1";
      assert "1"[..0] == [];
    }
    DigitRunEndAt(s, 3, 5, 10);
    LitAtChars(s, 0, "1'000");
    TrailingSeparator();
  }

  lemma TrailingSeparator()
    ensures IntegerLiteral("1';", 0) == None
  {
    var t := "1';";
    assert t[0] == '1' && t[1] == '\'' && t[2] == ';' && !IsDigitOf(';', 10);
    assert DigitRunEnd(t, 1, 10) == None;
    IntegerLiteralDecimal(t, 0);
  }

  // ---------------------------------------------------------------------
  // Operators

  /** Every infix operator of the expression grammar, including the `?` that
      opens a conditional. */
  datatype InfixOp = Bin(bop: BinaryOp) | Seq(sop: SequencedOp) | Question | Assign

  function Spelling(op: InfixOp): (t: string)
    ensures 1 <= |t| <= 2
  {
    match op
    case Bin(Mul) => "*"
    case Bin(Div) => "/"
    case Bin(Rem) => "%"
    case Bin(Add) => "+"
    case Bin(Sub) => "-"
    case Bin(Shl) => "<<"
    case Bin(Shr) => ">>"
    case Bin(Lt) => "<"
    case Bin(Le) => "<="
    case Bin(Gt) => ">"
    case Bin(Ge) => ">="
    case Bin(Eq) => "=="
    case Bin(Ne) => "!="
    case Bin(BAnd) => "&"
    case Bin(BXor) => "^"
    case Bin(BOr) => "|"
    case Seq(LAnd) => "&&"
    case Seq(LOr) => "||"
    case Seq(Comma) => ","
    case Question => "?"
    case Assign => "="
  }

  /** The infix operator at `i`: the longest spelling that matches. The
      relational level's guard that `<` and `>` are not followed by another
      `<` (respectively `>`) holds because the shifts are matched first; see
      `RelationalGuard`. */
  function InfixAt(s: seq<char>, i: nat): (r: Option<InfixOp>)
    ensures r.Some? ==> LitAt(s, i, Spelling(r.value))
  {
    if i >= |s| then None
    else
      match s[i]
      case '*' => Some(Bin(Mul))
      case '/' => Some(Bin(Div))
      case '%' => Some(Bin(Rem))
      case '+' => Some(Bin(Add))
      case '-' => Some(Bin(Sub))
      case '<' =>
        if CharAt(s, i + 1, '<') then Some(Bin(Shl))
        else if CharAt(s, i + 1, '=') then Some(Bin(Le))
        else Some(Bin(Lt))
      case '>' =>
        if CharAt(s, i + 1, '>') then Some(Bin(Shr))
        else if CharAt(s, i + 1, '=') then Some(Bin(Ge))
        else Some(Bin(Gt))
      case '=' => if CharAt(s, i + 1, '=') then Some(Bin(Eq)) else Some(Assign)
      case '!' => if CharAt(s, i + 1, '=') then Some(Bin(Ne)) else None
      case '&' => if CharAt(s, i + 1, '&') then Some(Seq(LAnd)) else Some(Bin(BAnd))
      case '^' => Some(Bin(BXor))
      case '|' => if CharAt(s, i + 1, '|') then Some(Seq(LOr)) else Some(Bin(BOr))
      case ',' => Some(Seq(Comma))
      case '?' => Some(Question)
      case _ => None
  }

  /** Among the operators whose spelling occurs at `i`, `InfixAt` picks the
      longest, which is unique: the operator it finds is exactly the one
      whose spelling occurs there and no longer spelling does. */
  lemma InfixAtLongestMatch(s: seq<char>, i: nat, op: InfixOp)
    ensures InfixAt(s, i) == Some(op) <==>
      LitAt(s, i, Spelling(op)) && forall op' :: LitAt(s, i, Spelling(op')) ==> |Spelling(op')| <= |Spelling(op)|
  {
    forall op' | LitAt(s, i, Spelling(op')) ensures InfixAt(s, i).Some? && |Spelling(op')| <= |Spelling(InfixAt(s, i).value)| {
      InfixAtFinds(s, i, op');
    }
    if LitAt(s, i, Spelling(op)) && forall op' :: LitAt(s, i, Spelling(op')) ==> |Spelling(op')| <= |Spelling(op)| {
      var r := InfixAt(s, i).value;
      assert Spelling(r) == s[i..i + |Spelling(op)|] == Spelling(op);
      SpellingInjective(r, op);
    }
  }

  /** Wherever some operator is spelled, `InfixAt` finds one, at least as
      long. */
  lemma InfixAtFinds(s: seq<char>, i: nat, op: InfixOp)
    requires LitAt(s, i, Spelling(op))
    ensures InfixAt(s, i).Some? && |Spelling(op)| <= |Spelling(InfixAt(s, i).value)|
  {
    assert s[i] == Spelling(op)[0];
    if |Spelling(op)| == 2 {
      assert s[i..i + 2] == Spelling(op);
    }
  }

  /** No two operators are spelled alike. */
  lemma SpellingInjective(a: InfixOp, b: InfixOp)
    requires Spelling(a) == Spelling(b)
    ensures a == b
  {
  }

  /** `<` is the less-than operator only when neither `<` (a shift) nor `=`
      follows it; likewise `>`. */
  lemma RelationalGuard(s: seq<char>, i: nat)
    ensures InfixAt(s, i) == Some(Bin(Lt)) <==> CharAt(s, i, '<') && !CharAt(s, i + 1, '<') && !CharAt(s, i + 1, '=')
    ensures InfixAt(s, i) == Some(Bin(Gt)) <==> CharAt(s, i, '>') && !CharAt(s, i + 1, '>') && !CharAt(s, i + 1, '=')
  {
    if i < |s| {
      assert s[i..i + 1] == [s[i]];
      if i + 1 < |s| {
        assert s[i..i + 2] == [s[i], s[i + 1]];
        assert s[i + 1..i + 2] == [s[i + 1]];
      }
    }
  }

  /** The prefix operator at `i`, if any. */
  function UnaryAt(s: seq<char>, i: nat): (r: Option<UnaryOp>)
    ensures r.Some? <==> i < |s| && s[i] in "+-~!"
    ensures r.Some? ==> s[i] == UnarySpelling(r.value)
  {
    if i < |s| then
      match s[i]
      case '+' => Some(Plus)
      case '-' => Some(Neg)
      case '~' => Some(BNot)
      case '!' => Some(LNot)
      case _ => None
    else None
  }

  function UnarySpelling(op: UnaryOp): char {
    match op
    case Plus => '+'
    case Neg => '-'
    case BNot => '~'
    case LNot => '!'
  }
}
