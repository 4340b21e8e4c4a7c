/** The address parser of the balance checker (src/App.js, line 15).

    The raw text of the input box is split on line feeds, every line is
    trimmed with JavaScript's `String.prototype.trim`, and the lines that are
    empty after trimming are dropped. Nothing else is checked: what is left
    is passed on as an address, in line order, duplicates included.
 */
module Addresses {

  /** The characters `trim` removes: ECMAScript's WhiteSpace (tab, vertical
      tab, form feed, the byte order mark and every space separator of
      Unicode category Zs) and LineTerminator (line feed, carriage return,
      line and paragraph separators). */
  predicate IsSpace(c: char) {
    || c == '\t' || c == '\n' || c == '\U{B}' || c == '\U{C}' || c == '\r'
    || c == ' ' || c == '\U{A0}' || c == '\U{1680}'
    || ('\U{2000}' <= c <= '\U{200A}')
    || c == '\U{2028}' || c == '\U{2029}' || c == '\U{202F}' || c == '\U{205F}'
    || c == '\U{3000}' || c == '\U{FEFF}'
  }

  predicate AllSpace(s: string) {
    forall i :: 0 <= i < |s| ==> IsSpace(s[i])
  }

  /** Neither the first nor the last character is white space. */
  predicate Unpadded(s: string) {
    s == [] || (!IsSpace(s[0]) && !IsSpace(s[|s| - 1]))
  }

  /** Drops the leading white space: what is left does not start with
      white space (`TrimStartDrops` says what was dropped). */
  function TrimStart(s: string): (r: string)
    ensures |r| <= |s|
    ensures r == [] || !IsSpace(r[0])
  {
    if s != [] && IsSpace(s[0]) then TrimStart(s[1..]) else s
  }

  /** What is left is a suffix of `s`, and everything dropped was white space. */
  lemma {:induction false} TrimStartDrops(s: string)
    ensures TrimStart(s) == s[|s| - |TrimStart(s)|..]
    ensures AllSpace(s[..|s| - |TrimStart(s)|])
  {
    if s != [] && IsSpace(s[0]) {
      TrimStartDrops(s[1..]);
      var k := |s| - |TrimStart(s)|;
      assert s[1..][k - 1..] == s[k..];
      forall i | 0 <= i < k ensures IsSpace(s[..k][i]) {
        if i > 0 {
          assert s[..k][i] == s[1..][..k - 1][i - 1];
        }
      }
    }
  }

  /** Drops the trailing white space: what is left does not end with white
      space (`TrimEndDrops` says what was dropped). */
  function TrimEnd(s: string): (r: string)
    ensures |r| <= |s|
    ensures r == [] || !IsSpace(r[|r| - 1])
  {
    if s != [] && IsSpace(s[|s| - 1]) then TrimEnd(s[..|s| - 1]) else s
  }

  /** What is left is a prefix of `s`, and everything dropped was white space. */
  lemma {:induction false} TrimEndDrops(s: string)
    ensures TrimEnd(s) == s[..|TrimEnd(s)|]
    ensures AllSpace(s[|TrimEnd(s)|..])
  {
    if s != [] && IsSpace(s[|s| - 1]) {
      var t := s[..|s| - 1];
      TrimEndDrops(t);
      var k := |TrimEnd(s)|;
      assert t[..k] == s[..k];
      forall i | k <= i < |s| ensures IsSpace(s[i]) {
        if i < |s| - 1 {
          assert s[i] == t[k..][i - k];
        }
      }
    }
  }

  /** JavaScript's `trim`: the middle part of `s` left after removing white
      space at both ends. */
  function Trim(s: string): (r: string)
    ensures |r| <= |s|
  {
    TrimEnd(TrimStart(s))
  }

  /** No white space is left at either end. */
  lemma TrimIsUnpadded(s: string)
    ensures Unpadded(Trim(s))
  {
    var t := TrimStart(s);
    var r := TrimEnd(t);
    TrimEndDrops(t);
    if r != [] {
      assert r[0] == t[0];
    }
  }

  /** What trim removes is white space, from both ends only: `s` is some
      white space, then `Trim(s)`, then some white space. */
  lemma TrimSplits(s: string)
    ensures exists i :: 0 <= i <= |s| - |Trim(s)| && AllSpace(s[..i]) && s[i..i + |Trim(s)|] == Trim(s) && AllSpace(s[i + |Trim(s)|..])
  {
    var t := TrimStart(s);
    var r := TrimEnd(t);
    TrimStartDrops(s);
    TrimEndDrops(t);
    var i := |s| - |t|;
    assert s[i..i + |r|] == r;
    assert s[i + |r|..] == t[|r|..];
  }

  /** Trim is the unique way of cutting `s` into white space, an unpadded
      middle and white space: any such cut has `Trim(s)` as its middle. */
  lemma TrimUnique(p: string, m: string, q: string)
    requires AllSpace(p) && AllSpace(q) && Unpadded(m)
    ensures Trim(p + m + q) == m
  {
    var s := p + m + q;
    if m == [] {
      assert AllSpace(s) by {
        forall i | 0 <= i < |s| ensures IsSpace(s[i]) {
          if i < |p| { assert s[i] == p[i]; } else { assert s[i] == q[i - |p|]; }
        }
      }
      TrimStartSkips(s, []);
      assert s + [] == s;
    } else {
      TrimStartSkips(p, m + q);
      assert s == p + (m + q);
      TrimEndSkips(m, q);
    }
  }

  lemma {:induction false} TrimStartSkips(p: string, rest: string)
    requires AllSpace(p) && (rest == [] || !IsSpace(rest[0]))
    ensures TrimStart(p + rest) == rest
  {
    if p != [] {
      assert (p + rest)[0] == p[0];
      assert (p + rest)[1..] == p[1..] + rest;
      TrimStartSkips(p[1..], rest);
    }
  }

  lemma {:induction false} TrimEndSkips(rest: string, q: string)
    requires AllSpace(q) && (rest == [] || !IsSpace(rest[|rest| - 1]))
    ensures TrimEnd(rest + q) == rest
  {
    if q != [] {
      var s := rest + q;
      assert s[|s| - 1] == q[|q| - 1];
      assert s[..|s| - 1] == rest + q[..|q| - 1];
      TrimEndSkips(rest, q[..|q| - 1]);
    } else {
      assert rest + q == rest;
    }
  }

  /** An unpadded string is its own trim. */
  lemma TrimUnpadded(s: string)
    requires Unpadded(s)
    ensures Trim(s) == s
  {
    TrimUnique([], s, []);
    assert [] + s + [] == s;
  }

  /** Trimming twice is trimming once. */
  lemma TrimIdempotent(s: string)
    ensures Trim(Trim(s)) == Trim(s)
  {
    TrimIsUnpadded(s);
    TrimUnpadded(Trim(s));
  }

  /** A line is dropped by the parser exactly when it is all white space. */
  lemma TrimEmptyIffBlank(s: string)
    ensures Trim(s) == [] <==> AllSpace(s)
  {
    if AllSpace(s) {
      TrimUnique(s, [], []);
      assert s + [] + [] == s;
    } else if Trim(s) == [] {
      TrimSplits(s);
      var i :| 0 <= i <= |s| && AllSpace(s[..i]) && AllSpace(s[i..]);
      forall j | 0 <= j < |s| ensures IsSpace(s[j]) {
        if j < i { assert s[j] == s[..i][j]; } else { assert s[j] == s[i..][j - i]; }
      }
    }
  }

  /** JavaScript's `Array.prototype.join('\n')`: the inverse of `SplitLines`. */
  function JoinLines(lines: seq<string>): string
  {
    if |lines| == 0 then []
    else if |lines| == 1 then lines[0]
    else lines[0] + "\n" + JoinLines(lines[1..])
  }

  /** JavaScript's `text.split('\n')`: at least one piece, no piece holds a
      line feed, and joining the pieces with line feeds gives back `text`. */
  function SplitLines(text: string): (lines: seq<string>)
    ensures |lines| >= 1
    ensures forall i :: 0 <= i < |lines| ==> '\n' !in lines[i]
    ensures JoinLines(lines) == text
  {
    if text == [] then [[]]
    else if text[0] == '\n' then
      var rest := SplitLines(text[1..]);
      assert text == "\n" + text[1..];
      [[]] + rest
    else
      var rest := SplitLines(text[1..]);
      assert text == [text[0]] + text[1..];
      [[text[0]] + rest[0]] + rest[1..]
  }

  /** Splitting undoes joining, for pieces without line feeds. */
  lemma {:induction false} SplitJoin(lines: seq<string>)
    requires |lines| >= 1
    requires forall i :: 0 <= i < |lines| ==> '\n' !in lines[i]
    ensures SplitLines(JoinLines(lines)) == lines
  {
    if |lines| == 1 {
      SplitNoNewline(lines[0]);
    } else {
      SplitJoin(lines[1..]);
      SplitConcat(lines[0], JoinLines(lines[1..]));
      SplitNoNewline(lines[0]);
      assert [lines[0]] + lines[1..] == lines;
    }
  }

  /** A text without line feeds is one line. */
  lemma {:induction false} SplitNoNewline(text: string)
    requires '\n' !in text
    ensures SplitLines(text) == [text]
  {
    if text != [] {
      SplitNoNewline(text[1..]);
      assert [text[0]] + text[1..] == text;
    }
  }

  /** A line feed between two texts separates their lines. */
  lemma {:induction false} SplitConcat(a: string, b: string)
    ensures SplitLines(a + "\n" + b) == SplitLines(a) + SplitLines(b)
  {
    var s := a + "\n" + b;
    if a == [] {
      assert s == "\n" + b;
      assert s[1..] == b;
    } else {
      assert s[0] == a[0];
      assert s[1..] == a[1..] + "\n" + b;
      SplitConcat(a[1..], b);
    }
  }

  /** The `map(addr => addr.trim())` step. */
  function TrimAll(lines: seq<string>): (r: seq<string>)
    ensures |r| == |lines|
    ensures forall i :: 0 <= i < |r| ==> r[i] == Trim(lines[i])
  {
    seq(|lines|, i requires 0 <= i < |lines| => Trim(lines[i]))
  }

  /** The `filter(addr => addr)` step: keeps the non-empty strings in order.
      Every kept string is a non-empty string of the input, and every
      non-empty string of the input is kept (`DropEmptyConcat` adds that the
      order and the number of copies are kept too). */
  function DropEmpty(xs: seq<string>): (r: seq<string>)
    ensures |r| <= |xs|
    ensures forall i :: 0 <= i < |r| ==> r[i] != [] && r[i] in xs
    ensures forall x :: x in xs && x != [] ==> x in r
  {
    if xs == [] then []
    else if xs[0] == [] then DropEmpty(xs[1..])
    else [xs[0]] + DropEmpty(xs[1..])
  }

  /** The whole pipeline of line 15. */
  function ParseAddresses(text: string): seq<string>
  {
    DropEmpty(TrimAll(SplitLines(text)))
  }

  /** Every parsed address is non-empty, and trimming it again changes
      nothing: no white space (carriage returns included) survives at
      either end. */
  lemma ParsedAreTrimmed(text: string)
    ensures forall a :: a in ParseAddresses(text) ==> a != [] && Unpadded(a) && Trim(a) == a
  {
    var lines := SplitLines(text);
    forall a | a in ParseAddresses(text) ensures a != [] && Unpadded(a) && Trim(a) == a {
      assert a in TrimAll(lines);
      var i :| 0 <= i < |lines| && TrimAll(lines)[i] == a;
      TrimIsUnpadded(lines[i]);
      TrimUnpadded(a);
    }
  }

  lemma {:induction false} DropEmptyConcat(xs: seq<string>, ys: seq<string>)
    ensures DropEmpty(xs + ys) == DropEmpty(xs) + DropEmpty(ys)
  {
    if xs != [] {
      assert (xs + ys)[0] == xs[0];
      assert (xs + ys)[1..] == xs[1..] + ys;
      DropEmptyConcat(xs[1..], ys);
      if xs[0] == [] {
        assert DropEmpty(xs + ys) == DropEmpty(xs[1..] + ys);
      } else {
        assert DropEmpty(xs + ys) == [xs[0]] + DropEmpty(xs[1..] + ys);
        assert DropEmpty(xs) == [xs[0]] + DropEmpty(xs[1..]);
      }
    } else {
      assert xs + ys == ys;
    }
  }

  /** Parsing a single line: nothing when it is blank, its trim otherwise. */
  lemma ParseOneLine(line: string)
    requires '\n' !in line
    ensures ParseAddresses(line) == if AllSpace(line) then [] else [Trim(line)]
  {
    SplitNoNewline(line);
    TrimEmptyIffBlank(line);
    assert TrimAll([line]) == [Trim(line)];
  }

  /** Parsing distributes over lines: the addresses of `a` come first, those
      of `b` after them, and none is merged, lost or removed as a duplicate. */
  lemma ParseConcat(a: string, b: string)
    ensures ParseAddresses(a + "\n" + b) == ParseAddresses(a) + ParseAddresses(b)
  {
    SplitConcat(a, b);
    var la, lb := SplitLines(a), SplitLines(b);
    TrimAllConcat(la, lb);
    DropEmptyConcat(TrimAll(la), TrimAll(lb));
  }

  lemma TrimAllConcat(xs: seq<string>, ys: seq<string>)
    ensures TrimAll(xs + ys) == TrimAll(xs) + TrimAll(ys)
  {
    var l, r := TrimAll(xs + ys), TrimAll(xs) + TrimAll(ys);
    forall i | 0 <= i < |l| ensures l[i] == r[i] {
      if i < |xs| {
        assert (xs + ys)[i] == xs[i];
      } else {
        assert (xs + ys)[i] == ys[i - |xs|];
      }
    }
  }

  /** Number of lines that are not all white space. */
  function CountNonBlank(lines: seq<string>): nat
  {
    if lines == [] then 0
    else (if AllSpace(lines[0]) then 0 else 1) + CountNonBlank(lines[1..])
  }

  lemma {:induction false} DropEmptyTrimCount(lines: seq<string>)
    ensures |DropEmpty(TrimAll(lines))| == CountNonBlank(lines)
  {
    if lines != [] {
      assert TrimAll(lines)[1..] == TrimAll(lines[1..]);
      TrimEmptyIffBlank(lines[0]);
      DropEmptyTrimCount(lines[1..]);
    }
  }

  /** The number of addresses is the number of non-blank lines. */
  lemma ParseCount(text: string)
    ensures |ParseAddresses(text)| == CountNonBlank(SplitLines(text))
  {
    DropEmptyTrimCount(SplitLines(text));
  }

  /** A reference definition of line 15, line by line: the trim of every
      line that is not all white space, in line order. */
  function NonBlankTrims(lines: seq<string>): seq<string>
  {
    if lines == [] then []
    else (if AllSpace(lines[0]) then [] else [Trim(lines[0])]) + NonBlankTrims(lines[1..])
  }

  lemma {:induction false} DropEmptyTrimAll(lines: seq<string>)
    ensures DropEmpty(TrimAll(lines)) == NonBlankTrims(lines)
  {
    if lines != [] {
      assert TrimAll(lines)[1..] == TrimAll(lines[1..]);
      TrimEmptyIffBlank(lines[0]);
      DropEmptyTrimAll(lines[1..]);
    }
  }

  /** The parser keeps exactly the trims of the non-blank lines of the
      split, each once and in line order. */
  lemma ParseIsReference(text: string)
    ensures ParseAddresses(text) == NonBlankTrims(SplitLines(text))
  {
    DropEmptyTrimAll(SplitLines(text));
  }

  /** A line that trims to a non-empty address parses to that address. */
  lemma ParseLine(line: string, addr: string)
    requires '\n' !in line && addr != [] && Trim(line) == addr
    ensures ParseAddresses(line) == [addr]
  {
    TrimEmptyIffBlank(line);
    ParseOneLine(line);
  }

  /** Lines that trim to the given addresses parse back to exactly those
      addresses, in order: one address per line, whatever white space
      pads each line. */
  lemma {:induction false} ParseJoin(lines: seq<string>, addrs: seq<string>)
    requires |lines| == |addrs|
    requires forall i :: 0 <= i < |lines| ==> '\n' !in lines[i] && addrs[i] != [] && Trim(lines[i]) == addrs[i]
    ensures ParseAddresses(JoinLines(lines)) == addrs
  {
    if |lines| == 0 {
    } else if |lines| == 1 {
      ParseLine(lines[0], addrs[0]);
      assert addrs == [addrs[0]];
    } else {
      var head, tail := lines[0], JoinLines(lines[1..]);
      ParseJoin(lines[1..], addrs[1..]);
      ParseLine(head, addrs[0]);
      ParseConcat(head, tail);
      assert [addrs[0]] + addrs[1..] == addrs;
    }
  }

  /** Text pasted with Windows line endings (CR LF) gives the same addresses
      as with line feeds alone: the carriage return is trimmed away. */
  lemma CrlfJoin(addrs: seq<string>)
    requires forall i :: 0 <= i < |addrs| ==> '\n' !in addrs[i] && addrs[i] != [] && Unpadded(addrs[i])
    ensures ParseAddresses(JoinLines(seq(|addrs|, i requires 0 <= i < |addrs| => addrs[i] + "\r"))) == addrs
  {
    var lines := seq(|addrs|, i requires 0 <= i < |addrs| => addrs[i] + "\r");
    forall i | 0 <= i < |lines|
      ensures '\n' !in lines[i] && Trim(lines[i]) == addrs[i]
    {
      TrimUnique([], addrs[i], "\r");
      assert [] + addrs[i] + "\r" == lines[i];
    }
    ParseJoin(lines, addrs);
  }
}
