/** The string helpers of cskvs/util.c: `url_decode`, `strreplace` and
    `jsondeslash`. Each is a method over the buffers the C code works on,
    proved against a specification function on sequences. */
module Util {
  import opened Wrappers
  import opened CStrings

  function Min(a: int, b: int): int { if a <= b then a else b }

  // ---------------------------------------------------------------------
  // url_decode

  /** `isxdigit` in the C locale. */
  predicate IsHexDigit(c: char)
  {
    '0' <= c <= '9' || 'a' <= c <= 'f' || 'A' <= c <= 'F'
  }

  /** `HEXTOI(tolower(c))`: '0'-'9' give 0-9, 'a'-'f' and 'A'-'F' give 10-15. */
  function HexValue(c: char): (v: nat)
    requires IsHexDigit(c)
    ensures v < 16
  {
    if '0' <= c <= '9' then c as int - '0' as int
    else if 'a' <= c <= 'f' then c as int - 'a' as int + 10
    else c as int - 'A' as int + 10
  }

  /** A '%' followed by two hexadecimal digits starts at i. */
  predicate EscapeAt(s: string, i: nat)
  {
    CharAt(s, i) == '%' && IsHexDigit(CharAt(s, i + 1)) && IsHexDigit(CharAt(s, i + 2))
  }

  /** The byte a `%hh` escape at i stands for. */
  function EscapedChar(s: string, i: nat): (c: char)
    requires EscapeAt(s, i)
    ensures c as int == 16 * HexValue(s[i + 1]) + HexValue(s[i + 2])
  {
    (16 * HexValue(s[i + 1]) + HexValue(s[i + 2])) as char
  }

  /** The character url_decode writes for the input at i: the byte of a
      `%hh` escape, a space for '+' in a form-encoded string, else the
      character itself. */
  function DecodeChar(s: string, i: nat, form: bool): char
    requires i < |s|
  {
    if EscapeAt(s, i) then EscapedChar(s, i)
    else if form && s[i] == '+' then ' '
    else s[i]
  }

  /** How many input characters url_decode consumes at i (`i += 2` after
      an escape, then the loop's `i++`). */
  function StepLen(s: string, i: nat): nat
  {
    if EscapeAt(s, i) then 3 else 1
  }

  /** The decoding of the first n characters of s, from index i on, with no
      limit on the output. An escape that starts before n is decoded even
      when its digits lie past n, as in the C loop. */
  function Decoded(s: string, n: nat, i: nat, form: bool): string
    requires n <= |s|
    decreases n - i
  {
    if i >= n then [] else [DecodeChar(s, i, form)] + Decoded(s, n, i + StepLen(s, i), form)
  }

  /** One turn of the decoding loop, stated on the output so far. */
  lemma DecodedStep(out: string, s: string, n: nat, i: nat, form: bool)
    requires n <= |s| && i < n
    ensures out + Decoded(s, n, i, form) == (out + [DecodeChar(s, i, form)]) + Decoded(s, n, i + StepLen(s, i), form)
  {
  }

  /** `url_decode(src, srcLen, dst, dst.Length, form)`: decodes into dst
      until srcLen input characters are consumed or dst holds
      dst.Length - 1 characters, NUL-terminates, and returns the number of
      characters written. */
  method UrlDecode(src: string, srcLen: nat, dst: array<char>, form: bool) returns (j: nat)
    requires srcLen <= |src|
    requires dst.Length >= 1
    modifies dst
    ensures j <= srcLen && j <= dst.Length - 1
    ensures j == Min(|Decoded(src, srcLen, 0, form)|, dst.Length - 1)
    ensures dst[..j] == Decoded(src, srcLen, 0, form)[..j]
    ensures dst[j] == NUL
    ensures dst[j + 1..] == old(dst[j + 1..])
  {
    ghost var full := Decoded(src, srcLen, 0, form);
    ghost var out: string := [];
    var i: nat := 0;
    j := 0;
    while i < srcLen && j < dst.Length - 1
      invariant j <= i && j <= srcLen && j < dst.Length
      invariant |out| == j && out + Decoded(src, srcLen, i, form) == full
      invariant dst[..j] == out
      invariant dst[j..] == old(dst[j..])
    {
      var c, step := DecodeChar(src, i, form), StepLen(src, i);
      DecodedStep(out, src, srcLen, i, form);
      dst[j] := c;
      out := out + [c];
      i, j := i + step, j + 1;
    }
    DecodedLength(src, srcLen, i, form);
    ghost var pre := dst[..];
    dst[j] := NUL;
    assert dst[..] == pre[j := NUL];
    assert dst[j + 1..] == pre[j + 1..] == pre[j..][1..];
  }

  /** Decoding never produces more characters than it consumes. */
  lemma {:induction false} DecodedLength(s: string, n: nat, i: nat, form: bool)
    requires n <= |s|
    ensures |Decoded(s, n, i, form)| <= if i <= n then n - i else 0
    decreases n - i
  {
    if i < n {
      if EscapeAt(s, i) {
        DecodedLength(s, n, i + 3, form);
      } else {
        DecodedLength(s, n, i + 1, form);
      }
    }
  }

  /** Text without '%' (and, in form mode, without '+') decodes to itself. */
  lemma {:induction false} DecodedPlain(s: string, n: nat, i: nat, form: bool)
    requires n <= |s| && i <= n
    requires forall k :: i <= k < n ==> s[k] != '%' && (form ==> s[k] != '+')
    ensures Decoded(s, n, i, form) == s[i..n]
    decreases n - i
  {
    if i < n {
      DecodedPlain(s, n, i + 1, form);
    }
  }

  /** '+' is decoded to a space exactly when the input is form-encoded. */
  lemma DecodedPlus(s: string, n: nat, i: nat, form: bool)
    requires n <= |s| && i < n && s[i] == '+'
    ensures Decoded(s, n, i, form)[0] == if form then ' ' else '+'
  {
  }

  /** The upper-case hexadecimal digit for d. */
  function HexDigit(d: nat): (c: char)
    requires d < 16
    ensures IsHexDigit(c) && HexValue(c) == d
  {
    if d < 10 then ('0' as int + d) as char else ('A' as int + d - 10) as char
  }

  /** The `%hh` escape of a byte. */
  function Escape(c: char): string
    requires c as int < 256
  {
    ['%', HexDigit(c as int / 16), HexDigit(c as int % 16)]
  }

  /** Percent-encoding of every byte of t. */
  function PercentEncode(t: string): (e: string)
    requires forall k :: 0 <= k < |t| ==> t[k] as int < 256
    ensures |e| == 3 * |t|
  {
    if t == [] then [] else Escape(t[0]) + PercentEncode(t[1..])
  }

  /** Decoding looks only at the part of the input from i on. */
  lemma {:induction false} DecodedShift(p: string, s: string, n: nat, i: nat, form: bool)
    requires n <= |s|
    ensures Decoded(p + s, |p| + n, |p| + i, form) == Decoded(s, n, i, form)
    decreases n - i
  {
    if i < n {
      DecodedShift(p, s, n, i + StepLen(s, i), form);
      ShiftStep(p, s, n, i, form);
    }
  }

  /** One decoding step at i commutes with putting p in front of s. */
  lemma ShiftStep(p: string, s: string, n: nat, i: nat, form: bool)
    requires i < n <= |s|
    requires Decoded(p + s, |p| + n, |p| + (i + StepLen(s, i)), form) == Decoded(s, n, i + StepLen(s, i), form)
    ensures Decoded(p + s, |p| + n, |p| + i, form) == Decoded(s, n, i, form)
  {
    ShiftHead(p, s, i, form);
    DecodedHead(p + s, |p| + n, |p| + i, form);
    DecodedHead(s, n, i, form);
  }

  /** The first character decoded at i and where decoding goes on. */
  lemma DecodedHead(s: string, n: nat, i: nat, form: bool)
    requires i < n <= |s|
    ensures Decoded(s, n, i, form) == [DecodeChar(s, i, form)] + Decoded(s, n, i + StepLen(s, i), form)
  {
  }

  /** The decoding step at i does not see a prefix put in front of s. */
  lemma ShiftHead(p: string, s: string, i: nat, form: bool)
    requires i < |s|
    ensures StepLen(p + s, |p| + i) == StepLen(s, i)
    ensures DecodeChar(p + s, |p| + i, form) == DecodeChar(s, i, form)
  {
    assert CharAt(p + s, |p| + i) == CharAt(s, i);
    assert CharAt(p + s, |p| + i + 1) == CharAt(s, i + 1);
    assert CharAt(p + s, |p| + i + 2) == CharAt(s, i + 2);
  }

  /** Round trip: percent-encoding a byte string and url-decoding the
      result gives the byte string back, in either mode. */
  lemma {:induction false} DecodePercentEncode(t: string, form: bool)
    requires forall k :: 0 <= k < |t| ==> t[k] as int < 256
    ensures Decoded(PercentEncode(t), |PercentEncode(t)|, 0, form) == t
  {
    if t != [] {
      DecodedEscape(t[0], PercentEncode(t[1..]), form);
      DecodePercentEncode(t[1..], form);
    }
  }

  /** An escape of c in front of any text decodes to c followed by the
      decoding of that text. */
  lemma DecodedEscape(c: char, rest: string, form: bool)
    requires c as int < 256
    ensures Decoded(Escape(c) + rest, |Escape(c) + rest|, 0, form) == [c] + Decoded(rest, |rest|, 0, form)
  {
    var head := Escape(c);
    var e := head + rest;
    EscapeHead(c, rest, form);
    assert Decoded(e, |e|, 0, form) == [c] + Decoded(e, |e|, 3, form);
    DecodedShift(head, rest, |rest|, 0, form);
  }

  /** The escape of c in front of any text is one step of the decoder
      producing c. */
  lemma EscapeHead(c: char, rest: string, form: bool)
    requires c as int < 256
    ensures StepLen(Escape(c) + rest, 0) == 3 && DecodeChar(Escape(c) + rest, 0, form) == c
  {
    var e := Escape(c) + rest;
    assert EscapeAt(e, 0);
    assert EscapedChar(e, 0) == c;
  }

  /** A buffer of dst.Length > srcLen characters (urlshortd passes twice the
      input length) never cuts the decoding short. */
  lemma UrlDecodeRoomy(src: string, srcLen: nat, dstLength: nat, form: bool)
    requires srcLen <= |src| && dstLength > srcLen
    ensures Min(|Decoded(src, srcLen, 0, form)|, dstLength - 1) == |Decoded(src, srcLen, 0, form)|
  {
    DecodedLength(src, srcLen, 0, form);
  }

  // ---------------------------------------------------------------------
  // strreplace

  /** The text strreplace looks for: the name in braces. */
  function Placeholder(name: string): (p: string)
    ensures |p| == |name| + 2 && p[0] == '{' && p[|p| - 1] == '}'
  {
    "{" + name + "}"
  }

  /** `strncmp(s + p, pat, |pat|) == 0` for a NUL-free pattern: the pattern
      occurs in s at p. */
  predicate MatchAt(s: string, pat: string, p: nat)
  {
    p + |pat| <= |s| && SameFrom(s, pat, p, 0)
  }

  /** The characters of pat from offset t on agree with those of s from
      p + t on, compared one by one as `strncmp` does. */
  predicate SameFrom(s: string, pat: string, p: nat, t: nat)
    requires p + |pat| <= |s|
    decreases |pat| - t
  {
    t >= |pat| || (s[p + t] == pat[t] && SameFrom(s, pat, p, t + 1))
  }

  lemma {:induction false} SameFromChars(s: string, pat: string, p: nat, t: nat)
    requires p + |pat| <= |s|
    ensures SameFrom(s, pat, p, t) <==> forall u :: t <= u < |pat| ==> s[p + u] == pat[u]
    decreases |pat| - t
  {
    if t < |pat| {
      SameFromChars(s, pat, p, t + 1);
    }
  }

  /** An occurrence, character by character. */
  lemma MatchAtChars(s: string, pat: string, p: nat)
    ensures MatchAt(s, pat, p) <==> p + |pat| <= |s| && forall u :: 0 <= u < |pat| ==> s[p + u] == pat[u]
  {
    if p + |pat| <= |s| {
      SameFromChars(s, pat, p, 0);
    }
  }

  /** The positions at or after i where pat occurs, in increasing order: what
      the first loop of strreplace collects in `ridx`. */
  function MatchList(s: string, pat: string, i: nat): seq<nat>
    decreases |s| - i
  {
    if i >= |s| then []
    else (if MatchAt(s, pat, i) then [i] else []) + MatchList(s, pat, i + 1)
  }

  /** The match list holds exactly the positions at or after i where pat
      occurs. */
  lemma {:induction false} MatchListMembers(s: string, pat: string, i: nat)
    ensures forall t :: 0 <= t < |MatchList(s, pat, i)| ==>
              i <= MatchList(s, pat, i)[t] < |s| && MatchAt(s, pat, MatchList(s, pat, i)[t])
    ensures forall p :: i <= p < |s| && MatchAt(s, pat, p) ==> p in MatchList(s, pat, i)
    decreases |s| - i
  {
    if i < |s| {
      MatchListMembers(s, pat, i + 1);
    }
  }

  /** The copy loop of strreplace from input index i until it reaches stop:
      at an occurrence of pat it emits d and skips the occurrence, otherwise
      it copies one character. */
  function SubstTo(s: string, pat: string, d: string, i: nat, stop: int): string
    requires pat != [] && stop <= |s|
    decreases stop - i
  {
    if i >= stop then []
    else if MatchAt(s, pat, i) then d + SubstTo(s, pat, d, i + |pat|, stop)
    else [s[i]] + SubstTo(s, pat, d, i + 1, stop)
  }

  /** Every occurrence of `{name}` in instr replaced by d, scanning from the
      left. */
  function Substituted(instr: string, name: string, d: string): string
  {
    SubstTo(instr, Placeholder(name), d, 0, |instr|)
  }

  /** What strreplace returns: NULL (None) when instr holds no placeholder,
      else the substitution made by a copy loop that stops at index
      `instrlen - 1`, so that the final input character is lost unless it
      closes a placeholder. */
  function Replace(instr: string, name: string, d: string): (r: Option<string>)
    ensures r.None? <==> forall p :: 0 <= p < |instr| ==> !MatchAt(instr, Placeholder(name), p)
  {
    var pat := Placeholder(name);
    var ms := MatchList(instr, pat, 0);
    MatchListMembers(instr, pat, 0);
    if ms == [] then None
    else
      assert MatchAt(instr, pat, ms[0]);
      Some(SubstTo(instr, pat, d, 0, |instr| - 1))
  }

  /** Inside an occurrence of `{name}` no '{' follows its first character. */
  lemma InsidePlaceholder(s: string, name: string, p: nat, q: nat)
    requires '{' !in name && MatchAt(s, Placeholder(name), p)
    requires p < q < p + |name| + 2
    ensures s[q] != '{'
  {
    var pat := Placeholder(name);
    MatchAtChars(s, pat, p);
    assert s[p + (q - p)] == pat[q - p];
    if q - p <= |name| {
      assert pat[q - p] == name[q - p - 1];
    }
  }

  /** Two occurrences of `{name}` never overlap when the name holds no '{'. */
  lemma PlaceholdersDisjoint(s: string, name: string, p: nat, q: nat)
    requires '{' !in name && MatchAt(s, Placeholder(name), p)
    requires p < q < p + |name| + 2
    ensures !MatchAt(s, Placeholder(name), q)
  {
    InsidePlaceholder(s, name, p, q);
  }

  /** A stretch without occurrences adds nothing to the match list. */
  lemma {:induction false} MatchListSkip(s: string, pat: string, a: nat, b: nat)
    requires a <= b
    requires forall p :: a <= p < b ==> !MatchAt(s, pat, p)
    ensures MatchList(s, pat, a) == MatchList(s, pat, b)
    decreases b - a
  {
    if a < b {
      MatchListSkip(s, pat, a + 1, b);
    }
  }

  /** After an occurrence at i the next one is looked for from its end. */
  lemma MatchListAfter(s: string, name: string, i: nat)
    requires '{' !in name && MatchAt(s, Placeholder(name), i)
    ensures MatchList(s, Placeholder(name), i)
         == [i] + MatchList(s, Placeholder(name), i + |Placeholder(name)|)
  {
    var pat := Placeholder(name);
    assert MatchList(s, pat, i) == [i] + MatchList(s, pat, i + 1);
    forall p | i + 1 <= p < i + |pat|
      ensures !MatchAt(s, pat, p)
    {
      PlaceholdersDisjoint(s, name, i, p);
    }
    MatchListSkip(s, pat, i + 1, i + |pat|);
  }

  /** The substituted text is as long as the input plus, for every
      occurrence, the difference between d and the placeholder: the size
      strreplace allocates, less its NUL. */
  lemma {:induction false} SubstLength(s: string, name: string, d: string, i: nat)
    requires '{' !in name && i <= |s|
    ensures |SubstTo(s, Placeholder(name), d, i, |s|)|
         == |s| - i + |MatchList(s, Placeholder(name), i)| * (|d| - |name| - 2)
    decreases |s| - i
  {
    var pat := Placeholder(name);
    if i < |s| {
      var piece, next := SubstStep(s, pat, d, i, |s|);
      SubstLength(s, name, d, next);
      if MatchAt(s, pat, i) {
        MatchListAfter(s, name, i);
        MulSucc(|MatchList(s, pat, next)|, |d| - |pat|);
      } else {
        MatchListHead(s, pat, i);
      }
    }
  }

  lemma MulSucc(m: nat, k: int)
    ensures (m + 1) * k == m * k + k
  {
  }

  /** Text without a placeholder is copied unchanged. */
  lemma {:induction false} SubstPlain(s: string, pat: string, d: string, i: nat)
    requires pat != [] && i <= |s|
    requires forall p :: i <= p < |s| ==> !MatchAt(s, pat, p)
    ensures SubstTo(s, pat, d, i, |s|) == s[i..]
    decreases |s| - i
  {
    if i < |s| {
      SubstPlain(s, pat, d, i + 1);
    }
  }

  /** Two occurrences of `{name}` at p < q are at least a placeholder apart. */
  lemma MatchesApart(s: string, name: string, p: nat, q: nat)
    requires '{' !in name && MatchAt(s, Placeholder(name), p) && p < q
    requires q < |s| && s[q] == '{'
    ensures p + |name| + 2 <= q
  {
    if q < p + |name| + 2 {
      InsidePlaceholder(s, name, p, q);
    }
  }

  /** An occurrence that lies inside x is one in x + y, and the other way. */
  lemma MatchAtPrefix(x: string, y: string, pat: string, i: nat)
    requires i + |pat| <= |x|
    ensures MatchAt(x + y, pat, i) <==> MatchAt(x, pat, i)
  {
    MatchAtChars(x + y, pat, i);
    MatchAtChars(x, pat, i);
    forall t | i <= t < i + |pat|
      ensures (x + y)[t] == x[t]
    {
    }
  }

  /** Occurrences in the y part of x + y are those of y, shifted. */
  lemma MatchAtSuffix(x: string, y: string, pat: string, j: nat)
    ensures MatchAt(x + y, pat, |x| + j) <==> MatchAt(y, pat, j)
  {
    MatchAtChars(x + y, pat, |x| + j);
    MatchAtChars(y, pat, j);
    forall t | j <= t < |y|
      ensures (x + y)[|x| + t] == y[t]
    {
    }
  }

  /** Substitution over x + y splits at |x| when no occurrence starting in
      x runs past its end. */
  lemma {:induction false} SubstSplit(x: string, y: string, pat: string, d: string, i: nat)
    requires pat != [] && i <= |x|
    requires forall p :: i <= p < |x| && MatchAt(x + y, pat, p) ==> p + |pat| <= |x|
    ensures SubstTo(x + y, pat, d, i, |x + y|)
         == SubstTo(x, pat, d, i, |x|) + SubstTo(x + y, pat, d, |x|, |x + y|)
    decreases |x| - i
  {
    if i < |x| {
      SplitHead(x, y, pat, i);
      var piece, next := SubstStep(x + y, pat, d, i, |x + y|);
      var piece', next' := SubstStep(x, pat, d, i, |x|);
      SubstSplit(x, y, pat, d, next);
    }
  }

  /** One step of the copy loop at i: the piece it emits and where it goes
      on. */
  lemma SubstStep(s: string, pat: string, d: string, i: nat, stop: int) returns (piece: string, next: nat)
    requires pat != [] && i < stop <= |s|
    ensures piece == (if MatchAt(s, pat, i) then d else [s[i]])
    ensures next == (if MatchAt(s, pat, i) then i + |pat| else i + 1)
    ensures SubstTo(s, pat, d, i, stop) == piece + SubstTo(s, pat, d, next, stop)
  {
    if MatchAt(s, pat, i) {
      piece, next := d, i + |pat|;
    } else {
      piece, next := [s[i]], i + 1;
    }
  }

  /** Where no occurrence runs past the end of x, x + y and x agree at i
      on the character and on whether pat occurs. */
  lemma SplitHead(x: string, y: string, pat: string, i: nat)
    requires i < |x|
    requires MatchAt(x + y, pat, i) ==> i + |pat| <= |x|
    ensures (x + y)[i] == x[i]
    ensures MatchAt(x + y, pat, i) == MatchAt(x, pat, i)
  {
    if i + |pat| <= |x| {
      MatchAtPrefix(x, y, pat, i);
    }
  }

  /** Substitution over the y part of x + y does not see x. */
  lemma {:induction false} SubstShift(x: string, y: string, pat: string, d: string, j: nat)
    requires pat != [] && j <= |y|
    ensures SubstTo(x + y, pat, d, |x| + j, |x + y|) == SubstTo(y, pat, d, j, |y|)
    decreases |y| - j
  {
    var s := x + y;
    if j < |y| {
      MatchAtSuffix(x, y, pat, j);
      assert s[|x| + j] == y[j];
      var piece, next := SubstStep(s, pat, d, |x| + j, |s|);
      var piece', next' := SubstStep(y, pat, d, j, |y|);
      SubstShift(x, y, pat, d, next');
    }
  }

  /** Every placeholder is replaced where it stands: the text around it is
      substituted on its own and d takes the placeholder's place. */
  lemma SubstAround(a: string, name: string, d: string, b: string)
    requires '{' !in name
    ensures Substituted(a + Placeholder(name) + b, name, d)
         == Substituted(a, name, d) + d + Substituted(b, name, d)
  {
    var pat := Placeholder(name);
    var s := a + pat + b;
    assert s == a + (pat + b);
    assert s[|a|] == '{';
    forall p | 0 <= p < |a| && MatchAt(s, pat, p)
      ensures p + |pat| <= |a|
    {
      MatchesApart(s, name, p, |a|);
    }
    SubstSplit(a, pat + b, pat, d, 0);
    forall u | 0 <= u < |pat|
      ensures s[|a| + u] == pat[u]
    {
    }
    MatchAtChars(s, pat, |a|);
    assert s == (a + pat) + b;
    SubstShift(a + pat, b, pat, d, 0);
  }

  /** The copy loop stopping at `instrlen - 1` loses the final character of
      an input that does not end with a placeholder. */
  lemma {:induction false} SubstDropsLast(s: string, name: string, d: string, i: nat)
    requires i < |s|
    requires |s| < |name| + 2 || !MatchAt(s, Placeholder(name), |s| - |name| - 2)
    ensures SubstTo(s, Placeholder(name), d, i, |s| - 1) + [s[|s| - 1]]
         == SubstTo(s, Placeholder(name), d, i, |s|)
    decreases |s| - i
  {
    var pat := Placeholder(name);
    if i < |s| - 1 {
      if MatchAt(s, pat, i) {
        SubstDropsLast(s, name, d, i + |pat|);
      } else {
        SubstDropsLast(s, name, d, i + 1);
      }
    }
  }

  /** An input that ends with a placeholder loses nothing. */
  lemma {:induction false} SubstKeepsClosingPlaceholder(s: string, name: string, d: string, i: nat)
    requires '{' !in name
    requires |s| >= |name| + 2 && MatchAt(s, Placeholder(name), |s| - |name| - 2)
    requires i <= |s| - |name| - 2
    ensures SubstTo(s, Placeholder(name), d, i, |s| - 1) == SubstTo(s, Placeholder(name), d, i, |s|)
    decreases |s| - i
  {
    var pat := Placeholder(name);
    var last := |s| - |pat|;
    if i < last {
      if MatchAt(s, pat, i) {
        MatchesApart(s, name, i, last);
        SubstKeepsClosingPlaceholder(s, name, d, i + |pat|);
      } else {
        SubstKeepsClosingPlaceholder(s, name, d, i + 1);
      }
    }
  }

  /** strreplace's result against the full substitution: equal when the
      input ends with a placeholder, else one character short. */
  lemma ReplaceDropsLast(instr: string, name: string, d: string)
    requires '{' !in name && Replace(instr, name, d).Some?
    ensures var r := Replace(instr, name, d).value;
            var full := Substituted(instr, name, d);
            if |instr| >= |name| + 2 && MatchAt(instr, Placeholder(name), |instr| - |name| - 2)
            then r == full
            else r + [instr[|instr| - 1]] == full
  {
    var pat := Placeholder(name);
    MatchListMembers(instr, pat, 0);
    if |instr| >= |pat| && MatchAt(instr, pat, |instr| - |pat|) {
      SubstKeepsClosingPlaceholder(instr, name, d, 0);
    } else {
      SubstDropsLast(instr, name, d, 0);
    }
  }

  /** `memcpy(dst + at, src, |src|)`. */
  method CopyInto(dst: array<char>, at: nat, src: string)
    requires at + |src| <= dst.Length
    modifies dst
    ensures forall t :: 0 <= t < at ==> dst[t] == old(dst[t])
    ensures forall t :: 0 <= t < |src| ==> dst[at + t] == src[t]
    ensures forall t :: at + |src| <= t < dst.Length ==> dst[t] == old(dst[t])
  {
    var n := 0;
    while n < |src|
      invariant n <= |src|
      invariant forall t :: 0 <= t < at ==> dst[t] == old(dst[t])
      invariant forall t :: 0 <= t < n ==> dst[at + t] == src[t]
      invariant forall t :: at + n <= t < dst.Length ==> dst[t] == old(dst[t])
    {
      dst[at + n] := src[n];
      n := n + 1;
    }
  }

  /** The match list from i starts with i exactly when pat occurs at i. */
  lemma MatchListHead(s: string, pat: string, i: nat)
    requires i < |s|
    ensures MatchList(s, pat, i) != [] && MatchList(s, pat, i)[0] == i <==> MatchAt(s, pat, i)
    ensures !MatchAt(s, pat, i) ==> MatchList(s, pat, i) == MatchList(s, pat, i + 1)
  {
    var rest := MatchList(s, pat, i + 1);
    MatchListFirst(s, pat, i + 1);
    if MatchAt(s, pat, i) {
      assert MatchList(s, pat, i) == [i] + rest;
    } else {
      assert MatchList(s, pat, i) == rest;
    }
  }

  /** No entry of the match list from i lies before i. */
  lemma {:induction false} MatchListFirst(s: string, pat: string, i: nat)
    ensures MatchList(s, pat, i) != [] ==> MatchList(s, pat, i)[0] >= i
    decreases |s| - i
  {
    if i < |s| && !MatchAt(s, pat, i) {
      MatchListFirst(s, pat, i + 1);
    }
  }

  /** One turn of the collecting loop, stated on the list so far. */
  lemma MatchListStep(out: seq<nat>, s: string, pat: string, n: nat)
    requires n < |s|
    ensures out + MatchList(s, pat, n)
         == (out + if MatchAt(s, pat, n) then [n] else []) + MatchList(s, pat, n + 1)
  {
  }

  /** The first loop of strreplace: every position where `strncmp` finds
      the placeholder, appended to `ridx` in increasing order. */
  method CollectMatches(instr: string, pat: string) returns (ridx: seq<nat>)
    ensures ridx == MatchList(instr, pat, 0)
  {
    ridx := [];
    var n := 0;
    while n < |instr|
      invariant n <= |instr|
      invariant ridx + MatchList(instr, pat, n) == MatchList(instr, pat, 0)
    {
      ghost var before := ridx;
      if MatchAt(instr, pat, n) {
        ridx := ridx + [n];
      }
      assert ridx == before + if MatchAt(instr, pat, n) then [n] else [];
      MatchListStep(before, instr, pat, n);
      n := n + 1;
    }
  }

  /** What the copy loop knows at input index i with `ridxidx == k`:
      `ridx[k..]` lists the placeholders from i on. */
  lemma RidxStep(s: string, name: string, ridx: seq<nat>, k: nat, i: nat)
    requires '{' !in name && i < |s|
    requires k <= |ridx| && ridx[k..] == MatchList(s, Placeholder(name), i)
    ensures k < |ridx| && ridx[k] == i <==> MatchAt(s, Placeholder(name), i)
    ensures MatchAt(s, Placeholder(name), i) ==>
              i + |Placeholder(name)| <= |s| && ridx[k + 1..] == MatchList(s, Placeholder(name), i + |Placeholder(name)|)
    ensures !MatchAt(s, Placeholder(name), i) ==> ridx[k..] == MatchList(s, Placeholder(name), i + 1)
  {
    MatchListHead(s, Placeholder(name), i);
    if MatchAt(s, Placeholder(name), i) {
      MatchListAfter(s, name, i);
      assert ridx[k + 1..] == ridx[k..][1..];
    }
  }

  /** Writes piece at `ret[j..]`, behind the out already written: the
      `memcpy` of d, or the store of one input character. */
  method Emit(ret: array<char>, j: nat, piece: string, ghost out: string) returns (ghost out': string)
    requires j + |piece| <= ret.Length && |out| == j && ret[..j] == out
    requires forall t :: j <= t < ret.Length ==> ret[t] == NUL
    modifies ret
    ensures out' == out + piece && ret[..j + |piece|] == out'
    ensures forall t :: j + |piece| <= t < ret.Length ==> ret[t] == NUL
  {
    CopyInto(ret, j, piece);
    out' := out + piece;
    assert ret[..j + |piece|] == out';
  }

  /** The decision one turn of the copy loop of strreplace takes: at the
      next recorded position (`ridxidx < ct && instridx == ridx[ridxidx]`)
      it emits d and skips the placeholder, otherwise it emits the input
      character. */
  method NextPiece(instr: string, name: string, d: string, ridx: seq<nat>, i: nat, k: nat)
    returns (piece: string, i': nat, k': nat)
    requires '{' !in name && i < |instr| - 1
    requires k <= |ridx| && ridx[k..] == MatchList(instr, Placeholder(name), i)
    ensures i < i' <= |instr| && k' <= |ridx| && ridx[k'..] == MatchList(instr, Placeholder(name), i')
    ensures SubstTo(instr, Placeholder(name), d, i, |instr| - 1)
         == piece + SubstTo(instr, Placeholder(name), d, i', |instr| - 1)
  {
    var pat := Placeholder(name);
    ghost var stop := |instr| - 1;
    RidxStep(instr, name, ridx, k, i);
    ghost var p, n := SubstStep(instr, pat, d, i, stop);
    if k < |ridx| && i == ridx[k] {
      piece, i', k' := d, i + |pat|, k + 1;
    } else {
      piece, i', k' := [instr[i]], i + 1, k;
    }
  }

  /** The copy loop of strreplace, writing into the zeroed buffer ret until
      `instridx` reaches `instrlen - 1`. */
  method CopyReplacing(instr: string, name: string, d: string, ridx: seq<nat>, ret: array<char>)
    requires '{' !in name && ridx == MatchList(instr, Placeholder(name), 0)
    requires |SubstTo(instr, Placeholder(name), d, 0, |instr| - 1)| < ret.Length
    requires forall t :: 0 <= t < ret.Length ==> ret[t] == NUL
    modifies ret
    ensures ret[..|SubstTo(instr, Placeholder(name), d, 0, |instr| - 1)|]
         == SubstTo(instr, Placeholder(name), d, 0, |instr| - 1)
    ensures forall t :: |SubstTo(instr, Placeholder(name), d, 0, |instr| - 1)| <= t < ret.Length ==> ret[t] == NUL
  {
    var pat := Placeholder(name);
    ghost var stop := |instr| - 1;
    ghost var full := SubstTo(instr, pat, d, 0, stop);
    ghost var out: string := [];
    ghost var rest := full;
    var i: nat, j: nat, k: nat := 0, 0, 0;
    while i < |instr| - 1
      invariant i <= |instr| && k <= |ridx| && ridx[k..] == MatchList(instr, pat, i)
      invariant rest == SubstTo(instr, pat, d, i, stop)
      invariant out + rest == full
      invariant |out| == j && ret[..j] == out
      invariant forall t :: j <= t < ret.Length ==> ret[t] == NUL
    {
      var piece, i', k' := NextPiece(instr, name, d, ridx, i, k);
      ghost var rest' := SubstTo(instr, pat, d, i', stop);
      assert rest == piece + rest';
      assert (out + piece) + rest' == full;
      out := Emit(ret, j, piece, out);
      i, j, k := i', j + |piece|, k';
      rest := rest';
    }
  }

  /** `strreplace(instr, name, d)`: collects the positions of `{name}`,
      returns NULL when there are none, else allocates
      `instrlen + ct * (dstrlen - rsstrlen) + 1` zeroed characters and
      copies instr into them with every placeholder replaced by d. */
  method StrReplace(instr: string, name: string, d: string) returns (ret: array?<char>)
    requires '{' !in name
    ensures ret == null <==> Replace(instr, name, d).None?
    ensures ret != null ==> fresh(ret)
    ensures ret != null ==>
              ret.Length == |instr| + |MatchList(instr, Placeholder(name), 0)| * (|d| - |name| - 2) + 1
    ensures ret != null ==> |Replace(instr, name, d).value| < ret.Length
    ensures ret != null ==> ret[..|Replace(instr, name, d).value|] == Replace(instr, name, d).value
    ensures ret != null ==>
              forall t :: |Replace(instr, name, d).value| <= t < ret.Length ==> ret[t] == NUL
  {
    var pat := Placeholder(name);
    var ridx := CollectMatches(instr, pat);
    var ct := |ridx|;
    if ct == 0 {
      return null;
    }
    ReplaceFits(instr, name, d);
    ret := new char[|instr| + ct * (|d| - |pat|) + 1](_ => NUL);
    CopyReplacing(instr, name, d, ridx, ret);
  }

  /** With at least one placeholder, the result is the copy loop's output,
      and it fits the buffer strreplace allocates, with room for the NUL. */
  lemma ReplaceFits(instr: string, name: string, d: string)
    requires '{' !in name && MatchList(instr, Placeholder(name), 0) != []
    ensures Replace(instr, name, d) == Some(SubstTo(instr, Placeholder(name), d, 0, |instr| - 1))
    ensures |SubstTo(instr, Placeholder(name), d, 0, |instr| - 1)|
          < |instr| + |MatchList(instr, Placeholder(name), 0)| * (|d| - |name| - 2) + 1
  {
    var pat := Placeholder(name);
    MatchListMembers(instr, pat, 0);
    assert MatchAt(instr, pat, MatchList(instr, pat, 0)[0]);
    SubstLength(instr, name, d, 0);
    ReplaceDropsLast(instr, name, d);
  }

  // ---------------------------------------------------------------------
  // strreplace as written: the over-read of ridx

  /** How the copy loop as written ends: it either finishes, or reaches a
      turn where `ridxidx == ct` and so reads `ridx[ct]`, one element past
      the list `realloc` sized for ct entries. */
  datatype CopyOutcome = ReadsPastList | Copied(out: string)

  /** The copy loop of strreplace exactly as written: the test
      `instridx == ridx[ridxidx]` with no check that `ridxidx < ct`. */
  function CopyAsWritten(s: string, pat: string, d: string, ridx: seq<nat>, i: nat, k: nat, stop: int): CopyOutcome
    requires pat != []
    decreases stop - i
  {
    if i >= stop then Copied([])
    else if k >= |ridx| then ReadsPastList
    else if i == ridx[k] then
      match CopyAsWritten(s, pat, d, ridx, i + |pat|, k + 1, stop)
      case ReadsPastList => ReadsPastList
      case Copied(rest) => Copied(d + rest)
    else if i < |s| then
      match CopyAsWritten(s, pat, d, ridx, i + 1, k, stop)
      case ReadsPastList => ReadsPastList
      case Copied(rest) => Copied([s[i]] + rest)
    else ReadsPastList
  }

  /** "{A}xy" with name "A": after the placeholder at 0 the loop goes on at
      index 3 < instrlen - 1 and reads `ridx[1]`, past the one recorded
      position. */
  lemma CopyAsWrittenOverReads()
    ensures MatchList("{A}xy", Placeholder("A"), 0) == [0]
    ensures CopyAsWritten("{A}xy", Placeholder("A"), "v", [0], 0, 0, 4) == ReadsPastList
  {
    var s, pat := "{A}xy", Placeholder("A");
    MatchAtChars(s, pat, 0);
    assert MatchAt(s, pat, 0);
    forall p | 1 <= p < |s|
      ensures !MatchAt(s, pat, p)
    {
      MatchAtChars(s, pat, p);
      assert p + |pat| > |s| || s[p] != pat[0];
    }
    MatchListSkip(s, pat, 1, |s|);
    assert MatchList(s, pat, 0) == [0] + MatchList(s, pat, 1);
  }

  /** The loop as written, from input index i with `ridxidx == k` and
      `ridx[k..]` listing the placeholders from i on: when it finishes it
      has produced the guarded loop's text, and it reads past the list
      exactly when the end of the last placeholder lies before
      `instrlen - 1` (or, with none left, when i does). */
  lemma {:induction false} CopyAsWrittenOutcome(s: string, name: string, d: string, ridx: seq<nat>, i: nat, k: nat)
    requires '{' !in name && i <= |s| && k <= |ridx| && ridx[k..] == MatchList(s, Placeholder(name), i)
    ensures var c := CopyAsWritten(s, Placeholder(name), d, ridx, i, k, |s| - 1);
            (c.Copied? ==> c.out == SubstTo(s, Placeholder(name), d, i, |s| - 1))
            && (c.ReadsPastList? <==>
                  if k < |ridx| then ridx[|ridx| - 1] + |Placeholder(name)| < |s| - 1 else i < |s| - 1)
    decreases |s| - i
  {
    var pat := Placeholder(name);
    if i < |s| - 1 {
      RidxStep(s, name, ridx, k, i);
      if k < |ridx| && i == ridx[k] {
        CopyAsWrittenOutcome(s, name, d, ridx, i + |pat|, k + 1);
      } else if k < |ridx| {
        CopyAsWrittenOutcome(s, name, d, ridx, i + 1, k);
      }
    } else if k < |ridx| {
      MatchListMembers(s, pat, i);
    }
  }

  /** strreplace exactly as written: None for NULL, `Some(ReadsPastList)`
      when its copy loop reads `ridx[ct]`, else the copied text. Whenever it
      finishes it agrees with Replace. */
  function ReplaceAsWritten(instr: string, name: string, d: string): (r: Option<CopyOutcome>)
    requires '{' !in name
    ensures r.None? <==> Replace(instr, name, d).None?
    ensures r.Some? && r.value.Copied? ==> Replace(instr, name, d) == Some(r.value.out)
  {
    var pat := Placeholder(name);
    var ms := MatchList(instr, pat, 0);
    if ms == [] then None
    else
      CopyAsWrittenOutcome(instr, name, d, ms, 0, 0);
      Some(CopyAsWritten(instr, pat, d, ms, 0, 0, |instr| - 1))
  }

  /** strreplace as written reads past `ridx` exactly when two or more
      characters follow the last placeholder of instr. */
  lemma ReplaceAsWrittenOverReads(instr: string, name: string, d: string)
    requires '{' !in name
    ensures var ms := MatchList(instr, Placeholder(name), 0);
            ReplaceAsWritten(instr, name, d) == Some(ReadsPastList) <==>
              ms != [] && ms[|ms| - 1] + |name| + 2 + 2 <= |instr|
  {
    CopyAsWrittenOutcome(instr, name, d, MatchList(instr, Placeholder(name), 0), 0, 0);
  }

  // ---------------------------------------------------------------------
  // jsondeslash

  /** s with every backslash removed. */
  function Deslashed(s: string): string
  {
    if s == [] then []
    else Deslashed(s[..|s| - 1]) + (if s[|s| - 1] == '\\' then [] else [s[|s| - 1]])
  }

  /** One more input character extends the deslashed prefix. */
  lemma DeslashedSnoc(s: string, i: nat)
    requires i < |s|
    ensures Deslashed(s[..i + 1]) == Deslashed(s[..i]) + if s[i] == '\\' then [] else [s[i]]
  {
    assert s[..i + 1][..i] == s[..i];
  }

  /** `jsondeslash(&buf)`: removes every backslash from the C string in buf,
      in place, moving the rest (and the NUL) down. */
  method JsonDeslash(buf: array<char>)
    requires NUL in buf[..]
    modifies buf
    ensures |Deslashed(CStr(old(buf[..])))| < buf.Length
    ensures buf[..|Deslashed(CStr(old(buf[..])))| + 1] == Deslashed(CStr(old(buf[..]))) + [NUL]
    ensures buf[|Deslashed(CStr(old(buf[..])))| + 1..] == old(buf[..])[|Deslashed(CStr(old(buf[..])))| + 1..]
  {
    ghost var orig := buf[..];
    var jl := FirstIndex(buf[..], NUL);
    var i: nat, j: nat := 0, 0;
    while i <= jl
      invariant i <= jl + 1 && j <= i
      invariant buf[..j] == Deslashed(orig[..i])
      invariant buf[j..] == orig[j..]
    {
      j := DeslashStep(buf, orig, i, j);
      i := i + 1;
    }
    CStrFirstNul(orig);
    DeslashedSnoc(orig, jl);
    DeslashedLength(CStr(orig));
  }

  /** One turn of the jsondeslash loop: a backslash at i is skipped, any
      other character is moved down to j. */
  method DeslashStep(buf: array<char>, ghost orig: string, i: nat, j: nat) returns (j': nat)
    requires i < |orig| == buf.Length && j <= i
    requires buf[..j] == Deslashed(orig[..i]) && buf[j..] == orig[j..]
    modifies buf
    ensures j' <= i + 1
    ensures buf[..j'] == Deslashed(orig[..i + 1]) && buf[j'..] == orig[j'..]
  {
    DeslashedSnoc(orig, i);
    assert buf[i] == buf[j..][i - j] == orig[i];
    if buf[i] == '\\' {
      j' := j;
    } else {
      Keep(buf, j, buf[i]);
      j' := j + 1;
      assert buf[j'..] == orig[j..][1..];
    }
  }

  /** The store `(*jstr)[j] = (*jstr)[i]` of a kept character. */
  method Keep(buf: array<char>, j: nat, c: char)
    requires j < buf.Length
    modifies buf
    ensures buf[..j + 1] == old(buf[..j]) + [c]
    ensures buf[j + 1..] == old(buf[j + 1..])
  {
    buf[j] := c;
  }

  /** Removing backslashes shortens s by exactly the number of backslashes
      in it. */
  lemma {:induction false} DeslashedLength(s: string)
    ensures |Deslashed(s)| == |s| - multiset(s)['\\']
  {
    if s != [] {
      var init := s[..|s| - 1];
      assert s == init + [s[|s| - 1]];
      DeslashedLength(init);
    }
  }

  /** No backslash is left. */
  lemma {:induction false} DeslashedFree(s: string)
    ensures '\\' !in Deslashed(s)
  {
    if s != [] {
      DeslashedFree(s[..|s| - 1]);
    }
  }

  /** Deslashing works piecewise: a concatenation deslashes to the
      concatenation of the deslashed parts. */
  lemma {:induction false} DeslashedAppend(a: string, b: string)
    ensures Deslashed(a + b) == Deslashed(a) + Deslashed(b)
    decreases |b|
  {
    if b != [] {
      var init := b[..|b| - 1];
      assert (a + b)[..|a + b| - 1] == a + init;
      DeslashedAppend(a, init);
    } else {
      assert a + b == a;
    }
  }

  /** A string is left unchanged exactly when it holds no backslash. */
  lemma DeslashedIdentity(s: string)
    ensures Deslashed(s) == s <==> '\\' !in s
  {
    DeslashedLength(s);
    if '\\' !in s {
      DeslashedPlain(s);
    }
  }

  lemma {:induction false} DeslashedPlain(s: string)
    requires '\\' !in s
    ensures Deslashed(s) == s
  {
    if s != [] {
      var init := s[..|s| - 1];
      assert s == init + [s[|s| - 1]];
      DeslashedPlain(init);
    }
  }

  /** Deslashing twice is deslashing once. */
  lemma DeslashedIdempotent(s: string)
    ensures Deslashed(Deslashed(s)) == Deslashed(s)
  {
    DeslashedFree(s);
    DeslashedPlain(Deslashed(s));
  }
}
