/** The JavaScript values the request handlers receive after JSON decoding and
    query-string parsing, and the few string operations they rely on. */
module Js {

  datatype Option<+T> = None | Some(value: T)

  /** What a request guard (an Express middleware) does: call `next()`, or
      answer 400 naming the check that failed. */
  datatype Verdict<E> = Next | Reject(error: E)

  /** A field of a decoded JSON request body. `Undefined` is a field that is
      absent; `Composite` stands for any object or array. */
  datatype Value = Undefined | Null | Bool(b: bool) | Num(n: real) | Str(s: string) | Composite

  /** The outcome of `parseInt` on a query-string parameter. */
  datatype Num = NaN | Int(i: int)

  /** The outcome of `new Date(text)` on a query-string parameter: either an
      invalid date or a timestamp in milliseconds. */
  datatype Date = InvalidDate | Date(ms: int)

  /** JavaScript truthiness: `!v` holds exactly when `Truthy(v)` does not. */
  predicate Truthy(v: Value)
  {
    match v
    case Undefined => false
    case Null => false
    case Bool(b) => b
    case Num(n) => n != 0.0
    case Str(s) => s != ""
    case Composite => true
  }

  /** `Number.isInteger` on a finite number. */
  predicate IsInteger(n: real)
  {
    n.Floor as real == n
  }

  /** The characters that `String.prototype.trim` strips and the regular
      expression class `\s` matches: ECMAScript WhiteSpace (tab, vertical
      tab, form feed, space, no-break space, byte order mark and the Unicode
      space separators) and LineTerminator (line feed, carriage return, line
      and paragraph separators). */
  predicate IsSpace(c: char)
  {
    c == '\t' || c == '\n' || c == '\U{0B}' || c == '\U{0C}' || c == '\r' || c == ' '
    || c == '\U{A0}' || c == '\U{1680}' || ('\U{2000}' <= c <= '\U{200A}')
    || c == '\U{2028}' || c == '\U{2029}' || c == '\U{202F}' || c == '\U{205F}'
    || c == '\U{3000}' || c == '\U{FEFF}'
  }

  predicate AllSpace(s: string)
  {
    forall k :: 0 <= k < |s| ==> IsSpace(s[k])
  }

  /** `s` with its leading white space removed. */
  function TrimStart(s: string): (r: string)
    ensures |r| <= |s| && r == s[|s| - |r|..]
    ensures r == [] || !IsSpace(r[0])
    ensures AllSpace(s[..|s| - |r|])
  {
    if s != [] && IsSpace(s[0]) then TrimStart(s[1..]) else s
  }

  /** `s` with its trailing white space removed. */
  function TrimEnd(s: string): (r: string)
    ensures |r| <= |s| && r == s[..|r|]
    ensures r == [] || !IsSpace(r[|r| - 1])
    ensures AllSpace(s[|r|..])
  {
    if s != [] && IsSpace(s[|s| - 1]) then TrimEnd(s[..|s| - 1]) else s
  }

  /** `r` is `s` with white space, and only white space, cut from both ends. */
  ghost predicate CutsOnlySpace(s: string, r: string)
  {
    exists i :: OccursAt(s, r, i) && AllSpace(s[..i]) && AllSpace(s[i + |r|..])
  }

  /** `String.prototype.trim`: the longest infix of `s` that neither starts
      nor ends with white space, once only white space is cut away. */
  function Trim(s: string): (r: string)
    ensures exists i :: OccursAt(s, r, i)
    ensures r == [] || (!IsSpace(r[0]) && !IsSpace(r[|r| - 1]))
  {
    var t := TrimStart(s);
    var r := TrimEnd(t);
    assert OccursAt(s, r, |s| - |t|);
    r
  }

  /** What `trim` removes is white space at the two ends and nothing else. */
  lemma TrimCutsOnlySpace(s: string)
    ensures CutsOnlySpace(s, Trim(s))
  {
    var t := TrimStart(s);
    var r := TrimEnd(t);
    var i := |s| - |t|;
    assert s[i + |r|..] == t[|r|..];
    assert OccursAt(s, r, i) && AllSpace(s[..i]) && AllSpace(s[i + |r|..]);
  }

  /** A string trims to nothing exactly when it is all white space. */
  lemma TrimEmptyIffAllSpace(s: string)
    ensures Trim(s) == [] <==> AllSpace(s)
  {
    var t := TrimStart(s);
    if t != [] {
      assert !IsSpace(s[|s| - |t|]);
      assert !IsSpace(t[0]);
    } else {
      assert s[..|s|] == s;
    }
  }

  /** Trimming a trimmed string changes nothing. */
  lemma TrimIdempotent(s: string)
    ensures Trim(Trim(s)) == Trim(s)
  {
    var r := Trim(s);
    if r != [] {
      assert !IsSpace(r[0]) && !IsSpace(r[|r| - 1]);
    }
  }

  /** Case folding of `mode: 'insensitive'` comparisons, on ASCII letters. */
  function LowerChar(c: char): char
  {
    if 'A' <= c <= 'Z' then (c as int + 32) as char else c
  }

  function Lower(s: string): (r: string)
    ensures |r| == |s|
  {
    seq(|s|, k requires 0 <= k < |s| => LowerChar(s[k]))
  }

  /** `needle` occurs as a contiguous part of `hay` (Prisma's `contains`). */
  ghost predicate Contains(hay: string, needle: string)
  {
    exists i :: OccursAt(hay, needle, i)
  }

  predicate OccursAt(hay: string, needle: string, i: int)
  {
    0 <= i <= |hay| - |needle| && hay[i..i + |needle|] == needle
  }

  /** A search for `needle` that walks `hay` from the left. */
  function Find(hay: string, needle: string): (found: bool)
    ensures found <==> Contains(hay, needle)
    decreases |hay|
  {
    if |hay| < |needle| then false
    else if hay[..|needle|] == needle then assert OccursAt(hay, needle, 0); true
    else
      var rest := Find(hay[1..], needle);
      assert rest ==> Contains(hay, needle) by {
        if rest {
          var i :| OccursAt(hay[1..], needle, i);
          assert OccursAt(hay, needle, i + 1);
        }
      }
      assert Contains(hay, needle) ==> rest by {
        if Contains(hay, needle) {
          var i :| OccursAt(hay, needle, i);
          if i != 0 {
            assert OccursAt(hay[1..], needle, i - 1);
          }
        }
      }
      rest
  }
}
