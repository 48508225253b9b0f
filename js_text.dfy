/** The JavaScript string built-ins that the services rely on (`startsWith`, `includes`,
    `split`, `join`, `trim`, number-to-string), stated over `string == seq<char>`.
    Only the behaviour the services observe is modelled: `split` and `join` take a
    one-character separator, which is all the repository ever passes. */
module JsText {

  /** A JavaScript value that may be `null` or `undefined`. */
  datatype Option<+T> = None | Some(value: T)

  /** `s.startsWith(p)` */
  predicate StartsWith(s: string, p: string) {
    |p| <= |s| && s[..|p|] == p
  }

  /** `s.endsWith(p)` */
  predicate EndsWith(s: string, p: string) {
    |p| <= |s| && s[|s| - |p|..] == p
  }

  /** `s.includes(sub)`: some position of `s` starts an occurrence of `sub`. */
  predicate Includes(s: string, sub: string)
    decreases |s|
  {
    StartsWith(s, sub) || (|s| > 0 && Includes(s[1..], sub))
  }

  /** An occurrence at position `i` makes `Includes` true. */
  lemma {:induction false} IncludesAt(s: string, sub: string, i: nat)
    requires i + |sub| <= |s| && s[i..i + |sub|] == sub
    ensures Includes(s, sub)
    decreases i
  {
    if i == 0 {
      assert s[..|sub|] == sub;
    } else {
      assert s[1..][i - 1..i - 1 + |sub|] == s[i..i + |sub|];
      IncludesAt(s[1..], sub, i - 1);
    }
  }

  /** `Includes` always has a witness position. */
  lemma {:induction false} IncludesWitness(s: string, sub: string) returns (i: nat)
    requires Includes(s, sub)
    ensures i + |sub| <= |s| && s[i..i + |sub|] == sub
    decreases |s|
  {
    if StartsWith(s, sub) {
      i := 0;
    } else {
      var j := IncludesWitness(s[1..], sub);
      assert s[1..][j..j + |sub|] == s[j + 1..j + 1 + |sub|];
      i := j + 1;
    }
  }

  /** An occurrence inside a piece is an occurrence in the whole. */
  lemma IncludesInfix(a: string, m: string, b: string, sub: string)
    requires Includes(m, sub)
    ensures Includes(a + m + b, sub)
  {
    var i := IncludesWitness(m, sub);
    assert (a + m + b)[|a| + i..|a| + i + |sub|] == m[i..i + |sub|];
    IncludesAt(a + m + b, sub, |a| + i);
  }

  /** An occurrence in a suffix is an occurrence in the whole. */
  lemma IncludesInSuffix(s: string, i: nat, sub: string)
    requires i <= |s| && Includes(s[i..], sub)
    ensures Includes(s, sub)
  {
    var j := IncludesWitness(s[i..], sub);
    assert s[i..][j..j + |sub|] == s[i + j..i + j + |sub|];
    IncludesAt(s, sub, i + j);
  }

  /** A string starts with its first piece, and the rest is what follows it. */
  lemma ConcatPieces(a: string, b: string)
    ensures StartsWith(a + b, a) && (a + b)[|a|..] == b
  {
    assert (a + b)[..|a|] == a;
  }

  /** Two strings that differ at a position shared by both are different, and neither
      starts with the other. */
  lemma DifferAt(a: string, b: string, i: nat)
    requires i < |a| && i < |b| && a[i] != b[i]
    ensures a != b && !StartsWith(a, b) && !StartsWith(b, a)
  {
  }

  /** Adjacent slices concatenate. */
  lemma SliceConcat<T>(s: seq<T>, i: nat, j: nat, k: nat)
    requires i <= j <= k <= |s|
    ensures s[i..k] == s[i..j] + s[j..k]
  {
  }

  /** The length of the longest prefix of `s` without `c`: the index of the first `c`, or
      `|s|` when there is none. */
  function RunWithout(s: string, c: char): (n: nat)
    ensures n <= |s|
    ensures forall i :: 0 <= i < n ==> s[i] != c
    ensures n < |s| ==> s[n] == c
    ensures n == |s| <==> c !in s
    decreases |s|
  {
    if s == [] || s[0] == c then 0 else 1 + RunWithout(s[1..], c)
  }

  /** `s.split(sep)` for a one-character separator: the maximal runs between separators,
      always at least one (possibly empty) part. */
  function Split(s: string, sep: char): (parts: seq<string>)
    ensures |parts| >= 1
    ensures forall i :: 0 <= i < |parts| ==> sep !in parts[i]
    decreases |s|
  {
    if s == [] then [""]
    else
      var rest := Split(s[1..], sep);
      if s[0] == sep then [""] + rest else [[s[0]] + rest[0]] + rest[1..]
  }

  /** `parts.join(sep)` for a one-character separator. */
  function Join(parts: seq<string>, sep: char): string
    decreases |parts|
  {
    if |parts| == 0 then ""
    else if |parts| == 1 then parts[0]
    else parts[0] + [sep] + Join(parts[1..], sep)
  }

  /** Joining the parts of a split gives back the string. */
  lemma {:induction false} JoinSplit(s: string, sep: char)
    ensures Join(Split(s, sep), sep) == s
    decreases |s|
  {
    if s != [] {
      var rest := Split(s[1..], sep);
      JoinSplit(s[1..], sep);
      if s[0] == sep {
        assert Split(s, sep) == [""] + rest;
        assert ([""] + rest)[1..] == rest;
      } else {
        var parts := [[s[0]] + rest[0]] + rest[1..];
        assert Split(s, sep) == parts;
        if |rest| == 1 {
          assert Join(rest, sep) == rest[0];
        } else {
          assert parts[1..] == rest[1..];
          assert Join(rest, sep) == rest[0] + [sep] + Join(rest[1..], sep);
        }
      }
    }
  }

  /** Splitting a string that is one piece free of the separator and then a separator keeps
      that piece as the first part. */
  lemma {:induction false} SplitAfterPiece(a: string, t: string, sep: char)
    requires sep !in a
    ensures Split(a + [sep] + t, sep) == [a] + Split(t, sep)
    decreases |a|
  {
    if a == [] {
      assert a + [sep] + t == [sep] + t;
      assert ([sep] + t)[1..] == t;
    } else {
      assert (a + [sep] + t)[1..] == a[1..] + [sep] + t;
      SplitAfterPiece(a[1..], t, sep);
      assert [a[0]] + a[1..] == a;
    }
  }

  /** Splitting a join of separator-free parts gives back the parts. */
  lemma {:induction false} SplitJoin(parts: seq<string>, sep: char)
    requires |parts| >= 1
    requires forall i :: 0 <= i < |parts| ==> sep !in parts[i]
    ensures Split(Join(parts, sep), sep) == parts
    decreases |parts|
  {
    if |parts| == 1 {
      SplitPieceAlone(parts[0], sep);
    } else {
      SplitJoin(parts[1..], sep);
      SplitAfterPiece(parts[0], Join(parts[1..], sep), sep);
      assert [parts[0]] + parts[1..] == parts;
    }
  }

  /** A separator-free string splits into itself. */
  lemma {:induction false} SplitPieceAlone(a: string, sep: char)
    requires sep !in a
    ensures Split(a, sep) == [a]
    decreases |a|
  {
    if a != [] {
      SplitPieceAlone(a[1..], sep);
      assert [a[0]] + a[1..] == a;
    }
  }

  /** The first part of a split is the text before the first separator. */
  lemma {:induction false} SplitFirst(s: string, sep: char)
    ensures Split(s, sep)[0] == s[..RunWithout(s, sep)]
    decreases |s|
  {
    if s != [] && s[0] != sep {
      SplitFirst(s[1..], sep);
      assert s[..RunWithout(s, sep)] == [s[0]] + s[1..][..RunWithout(s[1..], sep)];
    }
  }

  /** Joining two non-empty runs of parts puts one separator between their joins. */
  lemma {:induction false} JoinAppend(p: seq<string>, q: seq<string>, sep: char)
    requires |p| >= 1 && |q| >= 1
    ensures Join(p + q, sep) == Join(p, sep) + [sep] + Join(q, sep)
    decreases |p|
  {
    if |p| == 1 {
      assert (p + q)[1..] == q;
    } else {
      assert (p + q)[1..] == p[1..] + q;
      JoinAppend(p[1..], q, sep);
    }
  }

  /** `l` is a separator-free suffix of `s` that is all of `s` or follows a separator. */
  predicate IsFinalPiece(s: string, l: string, sep: char) {
    EndsWith(s, l) && sep !in l && (|l| == |s| || s[|s| - |l| - 1] == sep)
  }

  /** The last part of a split is the longest separator-free suffix of the string: it ends
      the string, holds no separator, and is either the whole string or preceded by one. */
  lemma {:induction false} SplitLast(s: string, sep: char)
    ensures IsFinalPiece(s, Split(s, sep)[|Split(s, sep)| - 1], sep)
    decreases |s|
  {
    if s != [] {
      SplitLast(s[1..], sep);
      SplitLastStep(s, sep);
      SplitTailFacts(s[1..], sep);
      LastPartExtends(s, sep, Split(s[1..], sep), Split(s, sep)[|Split(s, sep)| - 1]);
    }
  }

  /** A string splits into one part exactly when it holds no separator, and that part is
      then the whole string. */
  lemma SplitTailFacts(t: string, sep: char)
    ensures |Split(t, sep)| == 1 ==> Split(t, sep) == [t]
    ensures sep !in t ==> |Split(t, sep)| == 1
  {
    if |Split(t, sep)| == 1 {
      SplitSingle(t, sep);
    }
    if sep !in t {
      SplitPieceAlone(t, sep);
    }
  }

  /** The step of `SplitLast`, on plain values: `rest` stands for the split of `s[1..]`
      and `last` for the last part of the split of `s`. */
  lemma LastPartExtends(s: string, sep: char, rest: seq<string>, last: string)
    requires s != [] && |rest| >= 1
    requires IsFinalPiece(s[1..], rest[|rest| - 1], sep)
    requires |rest| == 1 ==> rest == [s[1..]]
    requires sep !in s[1..] ==> |rest| == 1
    requires last == if s[0] != sep && |rest| == 1 then s else rest[|rest| - 1]
    ensures IsFinalPiece(s, last, sep)
  {
    var l := rest[|rest| - 1];
    if s[0] != sep && |rest| == 1 {
      NoSepAnywhere(s, sep);
    } else {
      if |l| == |s| - 1 {
        assert l == s[1..][|s| - 1 - |l|..] == s[1..];
      }
      SuffixExtends(s, l, sep);
    }
  }

  /** A string whose head and tail hold no separator is a separator-free suffix of itself. */
  lemma NoSepAnywhere(s: string, sep: char)
    requires s != [] && s[0] != sep && sep !in s[1..]
    ensures EndsWith(s, s) && sep !in s
  {
    assert s == [s[0]] + s[1..];
    assert s[|s| - |s|..] == s;
  }

  /** A suffix of `s[1..]` that is all of it or follows a separator is a suffix of `s` with
      the same property, when a whole-tail suffix is preceded by a separator. */
  lemma SuffixExtends(s: string, l: string, sep: char)
    requires s != [] && EndsWith(s[1..], l)
    requires |l| == |s| - 1 || s[1..][|s| - 1 - |l| - 1] == sep
    requires |l| == |s| - 1 ==> s[0] == sep
    ensures EndsWith(s, l) && (|l| == |s| || s[|s| - |l| - 1] == sep)
  {
    assert s[1..][|s| - 1 - |l|..] == s[|s| - |l|..];
    if |l| < |s| - 1 {
      assert s[1..][|s| - 1 - |l| - 1] == s[|s| - |l| - 1];
    }
  }

  /** One step of `SplitLast`: the last part of a split of a non-empty string. */
  lemma SplitLastStep(s: string, sep: char)
    requires s != []
    ensures var rest := Split(s[1..], sep);
      Split(s, sep)[|Split(s, sep)| - 1] ==
        if s[0] != sep && |rest| == 1 then s else rest[|rest| - 1]
  {
    var rest := Split(s[1..], sep);
    var parts := Split(s, sep);
    if s[0] == sep {
      assert parts == [""] + rest;
      assert parts[|parts| - 1] == rest[|rest| - 1];
    } else if |rest| == 1 {
      SplitSingle(s[1..], sep);
      assert [s[0]] + s[1..] == s;
    } else {
      assert parts == [[s[0]] + rest[0]] + rest[1..];
      assert parts[|parts| - 1] == rest[1..][|rest| - 2];
    }
  }

  /** A split with a single part leaves the string whole. */
  lemma {:induction false} SplitSingle(s: string, sep: char)
    requires |Split(s, sep)| == 1
    ensures Split(s, sep) == [s]
    decreases |s|
  {
    if s != [] {
      SplitSingle(s[1..], sep);
      assert [s[0]] + s[1..] == s;
    }
  }

  /** The characters `String.prototype.trim` removes: ECMAScript WhiteSpace and
      LineTerminator code points. */
  predicate IsJsWhiteSpace(c: char) {
    c == '\t' || c == '\n' || c == '\U{B}' || c == '\U{C}' || c == '\r' || c == ' '
    || c == '\U{A0}' || c == '\U{1680}' || ('\U{2000}' <= c <= '\U{200A}')
    || c == '\U{2028}' || c == '\U{2029}' || c == '\U{202F}' || c == '\U{205F}'
    || c == '\U{3000}' || c == '\U{FEFF}'
  }

  /** The characters a regular-expression `.` does not match (ECMAScript LineTerminator). */
  predicate IsLineTerminator(c: char) {
    c == '\n' || c == '\r' || c == '\U{2028}' || c == '\U{2029}'
  }

  /** Every character of `s` is white space (the empty string included). */
  predicate IsBlank(s: string) {
    forall i :: 0 <= i < |s| ==> IsJsWhiteSpace(s[i])
  }

  /** `s.trimStart()` */
  function TrimStart(s: string): (r: string)
    ensures EndsWith(s, r)
    ensures r == "" <==> IsBlank(s)
    ensures r != "" ==> !IsJsWhiteSpace(r[0])
    decreases |s|
  {
    if s != [] && IsJsWhiteSpace(s[0]) then TrimStart(s[1..]) else s
  }

  /** What `TrimStart` drops is white space. */
  lemma {:induction false} TrimStartDropsBlank(s: string)
    ensures IsBlank(s[..|s| - |TrimStart(s)|])
    decreases |s|
  {
    if s != [] && IsJsWhiteSpace(s[0]) {
      var r := TrimStart(s[1..]);
      TrimStartDropsBlank(s[1..]);
      assert s[..|s| - |r|] == [s[0]] + s[1..][..|s| - 1 - |r|];
    }
  }

  /** White space followed by text that does not start with white space trims to that text. */
  lemma {:induction false} TrimStartAfterBlank(w: string, t: string)
    requires IsBlank(w)
    requires t == [] || !IsJsWhiteSpace(t[0])
    ensures TrimStart(w + t) == t
    decreases |w|
  {
    if w != [] {
      assert (w + t)[1..] == w[1..] + t;
      TrimStartAfterBlank(w[1..], t);
    } else {
      assert w + t == t;
    }
  }

  /** `s.trimEnd()` */
  function TrimEnd(s: string): (r: string)
    ensures StartsWith(s, r)
    ensures r == "" <==> IsBlank(s)
    decreases |s|
  {
    if s != [] && IsJsWhiteSpace(s[|s| - 1]) then TrimEnd(s[..|s| - 1]) else s
  }

  /** `s.trim()`; `s.trim() === ''` holds exactly of the all-white-space strings. */
  function Trim(s: string): (r: string)
    ensures r == "" <==> IsBlank(s)
  {
    TrimEnd(TrimStart(s))
  }

  predicate IsDigit(c: char) {
    '0' <= c <= '9'
  }

  /** The decimal digit for `d`. */
  function DigitChar(d: nat): (c: char)
    requires d < 10
    ensures IsDigit(c) && DigitOf(c) == d
  {
    ['0', '1', '2', '3', '4', '5', '6', '7', '8', '9'][d]
  }

  function DigitOf(c: char): nat
    requires IsDigit(c)
  {
    c as int - '0' as int
  }

  /** The value of `c` as a digit in base `radix` (10 or 16), or -1 when it is none. */
  function DigitValue(c: char, radix: nat): (d: int)
    requires radix == 10 || radix == 16
    ensures -1 <= d < radix
    ensures radix == 10 ==> (d >= 0 <==> IsDigit(c))
    ensures IsDigit(c) ==> d == DigitOf(c)
  {
    if IsDigit(c) then DigitOf(c)
    else if radix == 16 && 'a' <= c <= 'f' then c as int - 'a' as int + 10
    else if radix == 16 && 'A' <= c <= 'F' then c as int - 'A' as int + 10
    else -1
  }

  /** The value of a string of base-`radix` digits, most significant first. */
  function RadixValue(s: string, radix: nat): nat
    requires radix == 10 || radix == 16
    requires forall i :: 0 <= i < |s| ==> DigitValue(s[i], radix) >= 0
    decreases |s|
  {
    if s == [] then 0
    else RadixValue(s[..|s| - 1], radix) * radix + DigitValue(s[|s| - 1], radix)
  }

  /** `String(n)` for a non-negative integer, such as the one `Date.now()` returns. */
  function Decimal(n: nat): (r: string)
    ensures |r| >= 1
    ensures forall i :: 0 <= i < |r| ==> IsDigit(r[i])
    decreases n
  {
    if n < 10 then [DigitChar(n)] else Decimal(n / 10) + [DigitChar(n % 10)]
  }

  /** Reading back the decimal form gives the number again, so `Decimal` is injective. */
  lemma {:induction false} DecimalValue(n: nat)
    ensures RadixValue(Decimal(n), 10) == n
    decreases n
  {
    if n >= 10 {
      DecimalValue(n / 10);
      var r := Decimal(n);
      assert r[..|r| - 1] == Decimal(n / 10);
    }
  }

  lemma DecimalInjective(m: nat, n: nat)
    requires Decimal(m) == Decimal(n)
    ensures m == n
  {
    DecimalValue(m);
    DecimalValue(n);
  }
}
