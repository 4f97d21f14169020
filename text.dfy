/** Character classes and string helpers shared by every extractor.
    One whitespace predicate stands for JavaScript's `\s` and for what
    `String.prototype.trim` removes; one ASCII case fold stands for the `/i`
    flag of the extension's regular expressions, whose patterns are all ASCII. */
module Text {

  datatype Option<T> = None | Some(value: T)

  /** The ECMAScript WhiteSpace and LineTerminator code points. */
  predicate IsSpace(c: char) {
    c == '\t' || c == '\n' || c == '\U{000B}' || c == '\U{000C}' || c == '\r' || c == ' ' ||
    c == '\U{00A0}' || c == '\U{1680}' || ('\U{2000}' <= c <= '\U{200A}') ||
    c == '\U{2028}' || c == '\U{2029}' || c == '\U{202F}' || c == '\U{205F}' ||
    c == '\U{3000}' || c == '\U{FEFF}'
  }

  predicate NotCR(c: char) { c != '\r' }

  predicate IsDigit(c: char) { '0' <= c <= '9' }

  predicate IsAsciiLetter(c: char) { ('a' <= c <= 'z') || ('A' <= c <= 'Z') }

  predicate IsAsciiAlnum(c: char) { IsAsciiLetter(c) || IsDigit(c) }

  /** The `\w` class, used by `\b`. */
  predicate IsWordChar(c: char) { IsAsciiAlnum(c) || c == '_' }

  /** ASCII lower-casing: the case fold of every `/i` pattern here. */
  function Lower(c: char): (r: char)
    ensures IsAsciiLetter(c) ==> 'a' <= r <= 'z'
    ensures !('A' <= c <= 'Z') ==> r == c
  {
    if 'A' <= c <= 'Z' then (c as int + 32) as char else c
  }

  /** Case-insensitive equality of two strings of the same length. */
  predicate EqCI(a: string, b: string) {
    |a| == |b| && forall i :: 0 <= i < |a| ==> Lower(a[i]) == Lower(b[i])
  }

  predicate StartsWithCI(s: string, p: string) {
    |p| <= |s| && EqCI(s[..|p|], p)
  }

  predicate StartsWith(s: string, p: string) {
    |p| <= |s| && s[..|p|] == p
  }

  predicate EndsWith(s: string, p: string) {
    |p| <= |s| && s[|s| - |p|..] == p
  }

  /** p occurs in s at index i, up to case. */
  predicate OccursCIAt(s: string, p: string, i: int) {
    0 <= i <= |s| - |p| && EqCI(s[i..i + |p|], p)
  }

  /** p occurs in s at index i. */
  predicate OccursAt(s: string, p: string, i: int) {
    0 <= i <= |s| - |p| && s[i..i + |p|] == p
  }

  predicate ContainsCI(s: string, p: string) {
    exists i :: 0 <= i <= |s| && OccursCIAt(s, p, i)
  }

  predicate Contains(s: string, p: string) {
    exists i :: 0 <= i <= |s| && OccursAt(s, p, i)
  }

  /** `\b` right after a word that ends in a word character, at index k of s. */
  predicate BoundaryAt(s: string, k: nat) {
    k >= |s| || !IsWordChar(s[k])
  }

  /** `^w\b` (case-insensitive) for a word w whose last character is a word character. */
  predicate StartsWithWordCI(s: string, w: string) {
    StartsWithCI(s, w) && BoundaryAt(s, |w|)
  }

  predicate AllSpace(s: string) {
    forall i :: 0 <= i < |s| ==> IsSpace(s[i])
  }

  predicate AllDigits(s: string) {
    forall i :: 0 <= i < |s| ==> IsDigit(s[i])
  }

  /** `/^\s*$/` */
  predicate IsBlank(s: string) { AllSpace(s) }

  predicate IsTrimmed(s: string) {
    s == [] || (!IsSpace(s[0]) && !IsSpace(s[|s| - 1]))
  }

  /** `s.replace(/^\s+/, '')` */
  function TrimStart(s: string): (r: string)
    ensures |r| <= |s|
    ensures forall i :: 0 <= i < |s| - |r| ==> IsSpace(s[i])
    ensures r == [] || !IsSpace(r[0])
  {
    if s != [] && IsSpace(s[0]) then TrimStart(s[1..]) else s
  }

  /** `s.replace(/\s+$/, '')` */
  function TrimEnd(s: string): (r: string)
    ensures |r| <= |s|
    ensures forall i :: |r| <= i < |s| ==> IsSpace(s[i])
    ensures r == [] || !IsSpace(r[|r| - 1])
  {
    if s != [] && IsSpace(s[|s| - 1]) then TrimEnd(s[..|s| - 1]) else s
  }

  /** TrimStart takes a suffix. */
  lemma {:induction false} TrimStartSuffix(s: string)
    ensures TrimStart(s) == s[|s| - |TrimStart(s)|..]
    decreases |s|
  {
    if s != [] && IsSpace(s[0]) {
      TrimStartSuffix(s[1..]);
      assert s[1..][|s| - 1 - |TrimStart(s)|..] == s[|s| - |TrimStart(s)|..];
    }
  }

  /** TrimEnd takes a prefix. */
  lemma {:induction false} TrimEndPrefixOf(s: string)
    ensures TrimEnd(s) == s[..|TrimEnd(s)|]
    decreases |s|
  {
    if s != [] && IsSpace(s[|s| - 1]) {
      TrimEndPrefixOf(s[..|s| - 1]);
      assert s[..|s| - 1][..|TrimEnd(s)|] == s[..|TrimEnd(s)|];
    }
  }

  /** `s.trim()` */
  function Trim(s: string): (r: string)
    ensures IsTrimmed(r)
    ensures |r| <= |s|
    ensures r == [] <==> AllSpace(s)
  {
    var t := TrimStart(s);
    var r := TrimEnd(t);
    TrimStartSuffix(s);
    TrimEndPrefixOf(t);
    assert r != [] ==> !IsSpace(r[0]) by {
      if r != [] { assert r[0] == t[0]; }
    }
    assert t != [] ==> !AllSpace(s) by {
      if t != [] { assert !IsSpace(s[|s| - |t|]); }
    }
    assert t != [] ==> r != [] by {
      if t != [] { assert !IsSpace(t[0]); }
    }
    r
  }

  /** The characters of s that are not whitespace, in order. */
  function NonSpace(s: string): (r: string)
    ensures |r| <= |s|
  {
    if s == [] then [] else (if IsSpace(s[0]) then [] else [s[0]]) + NonSpace(s[1..])
  }

  /** `s.split('\n')`: always at least one piece, no piece holds a newline. */
  function Lines(s: string): (ls: seq<string>)
    ensures |ls| >= 1
    ensures forall k :: 0 <= k < |ls| ==> '\n' !in ls[k]
  {
    if s == [] then [""]
    else if s[0] == '\n' then [""] + Lines(s[1..])
    else var rest := Lines(s[1..]); [[s[0]] + rest[0]] + rest[1..]
  }

  /** `ls.join(sep)` */
  function Join(ls: seq<string>, sep: string): string {
    if |ls| == 0 then "" else if |ls| == 1 then ls[0] else ls[0] + sep + Join(ls[1..], sep)
  }

  /** `s.replace(/\n{3,}/g, '\n\n')`: every maximal run of n newlines becomes min(n, 2)
      newlines. A run of three or more loses its first newline until two remain. */
  function CollapseNewlines(s: string): (r: string)
    ensures |r| <= |s|
  {
    if |s| >= 3 && s[0] == '\n' && s[1] == '\n' && s[2] == '\n' then CollapseNewlines(s[1..])
    else if s == [] then []
    else [s[0]] + CollapseNewlines(s[1..])
  }

  /** Three newlines start at index i of s. */
  predicate TripleAt(s: string, i: int) {
    0 <= i < |s| - 2 && s[i] == '\n' && s[i + 1] == '\n' && s[i + 2] == '\n'
  }

  predicate NoTripleNewline(s: string) {
    forall i :: 0 <= i < |s| ==> !TripleAt(s, i)
  }

  lemma NoTripleSlice(s: string, lo: nat, hi: nat)
    requires lo <= hi <= |s|
    requires NoTripleNewline(s)
    ensures NoTripleNewline(s[lo..hi])
  {
    var t := s[lo..hi];
    forall i | 0 <= i < |t| ensures !TripleAt(t, i) {
      if TripleAt(t, i) {
        assert TripleAt(s, lo + i);
      }
    }
  }

  predicate NoLineSatisfies(s: string, bad: string -> bool) {
    forall l :: l in Lines(s) ==> !bad(l)
  }

  // ---------------------------------------------------------------------------
  // Split and join are inverse to each other.

  lemma {:induction false} LinesOfPrefixed(a: string, t: string)
    requires '\n' !in a
    ensures Lines(a + t) == [a + Lines(t)[0]] + Lines(t)[1..]
  {
    if a != [] {
      assert a[0] != '\n' && (a + t)[0] == a[0];
      assert (a + t)[1..] == a[1..] + t;
      LinesOfPrefixed(a[1..], t);
      var rest := Lines(a[1..] + t);
      assert Lines(a + t) == [[a[0]] + rest[0]] + rest[1..];
      assert rest[0] == a[1..] + Lines(t)[0];
      assert rest[1..] == Lines(t)[1..];
      assert [a[0]] + (a[1..] + Lines(t)[0]) == a + Lines(t)[0];
      assert [a[0]] + rest[0] == a + Lines(t)[0];
    } else {
      assert a + t == t;
      assert a + Lines(t)[0] == Lines(t)[0];
      assert Lines(t) == [Lines(t)[0]] + Lines(t)[1..];
    }
  }

  /** Splitting a join of newline-free pieces gives the pieces back. */
  lemma {:induction false} LinesOfJoin(ls: seq<string>)
    requires |ls| >= 1
    requires forall k :: 0 <= k < |ls| ==> '\n' !in ls[k]
    ensures Lines(Join(ls, "\n")) == ls
  {
    if |ls| == 1 {
      LinesOfPrefixed(ls[0], "");
      assert ls[0] + "" == ls[0];
      assert Lines("") == [""];
      assert ls == [ls[0]];
    } else {
      var rest := Join(ls[1..], "\n");
      LinesOfJoin(ls[1..]);
      assert ls[0] + "\n" + rest == ls[0] + ("\n" + rest);
      LinesOfPrefixed(ls[0], "\n" + rest);
      assert ("\n" + rest)[0] == '\n' && ("\n" + rest)[1..] == rest;
      assert Lines("\n" + rest) == [""] + Lines(rest);
      assert ls[0] + "" == ls[0];
      assert ls == [ls[0]] + ls[1..];
    }
  }

  /** Joining the pieces of a split gives the string back. */
  lemma {:induction false} JoinOfLines(s: string)
    ensures Join(Lines(s), "\n") == s
  {
    if s == [] {
    } else if s[0] == '\n' {
      JoinOfLines(s[1..]);
      var rest := Lines(s[1..]);
      assert Lines(s) == [""] + rest;
      assert Lines(s)[1..] == rest;
      assert s == "" + "\n" + s[1..];
    } else {
      JoinOfLines(s[1..]);
      var rest := Lines(s[1..]);
      if |rest| == 1 {
        assert Join(Lines(s), "\n") == [s[0]] + rest[0];
        assert s == [s[0]] + s[1..];
      } else {
        assert Lines(s)[1..] == rest[1..];
        assert Join(rest, "\n") == rest[0] + "\n" + Join(rest[1..], "\n");
        assert s == [s[0]] + s[1..];
      }
    }
  }

  // ---------------------------------------------------------------------------
  // Collapsing newlines.

  lemma {:induction false} CollapseKeepsLeadingNewlines(s: string)
    ensures |s| >= 1 && s[0] == '\n' <==> |CollapseNewlines(s)| >= 1 && CollapseNewlines(s)[0] == '\n'
    ensures |s| >= 2 && s[0] == '\n' && s[1] == '\n' <==>
            |CollapseNewlines(s)| >= 2 && CollapseNewlines(s)[0] == '\n' && CollapseNewlines(s)[1] == '\n'
    decreases |s|
  {
    if |s| >= 3 && s[0] == '\n' && s[1] == '\n' && s[2] == '\n' {
      CollapseKeepsLeadingNewlines(s[1..]);
    } else if s != [] {
      CollapseKeepsLeadingNewlines(s[1..]);
    }
  }

  /** The collapse leaves no run of three newlines. */
  lemma {:induction false} CollapseNoTriple(s: string)
    ensures NoTripleNewline(CollapseNewlines(s))
    decreases |s|
  {
    if |s| >= 3 && s[0] == '\n' && s[1] == '\n' && s[2] == '\n' {
      CollapseNoTriple(s[1..]);
    } else if s != [] {
      CollapseNoTriple(s[1..]);
      CollapseKeepsLeadingNewlines(s[1..]);
      var r := CollapseNewlines(s);
      var t := CollapseNewlines(s[1..]);
      assert r == [s[0]] + t;
      forall i | 0 <= i < |r| ensures !TripleAt(r, i) {
        if i > 0 && TripleAt(r, i) {
          assert TripleAt(t, i - 1);
        }
      }
    }
  }

  lemma {:induction false} NonSpaceAppend(a: string, b: string)
    ensures NonSpace(a + b) == NonSpace(a) + NonSpace(b)
  {
    if a == [] {
      assert a + b == b;
    } else {
      assert (a + b)[1..] == a[1..] + b;
      NonSpaceAppend(a[1..], b);
    }
  }

  lemma {:induction false} NonSpaceOfAllSpace(s: string)
    requires AllSpace(s)
    ensures NonSpace(s) == []
  {
    if s != [] { NonSpaceOfAllSpace(s[1..]); }
  }

  /** The collapse touches whitespace only. */
  lemma {:induction false} CollapseNonSpace(s: string)
    ensures NonSpace(CollapseNewlines(s)) == NonSpace(s)
    decreases |s|
  {
    if |s| >= 3 && s[0] == '\n' && s[1] == '\n' && s[2] == '\n' {
      CollapseNonSpace(s[1..]);
    } else if s != [] {
      CollapseNonSpace(s[1..]);
      NonSpaceAppend([s[0]], CollapseNewlines(s[1..]));
    }
  }

  lemma {:induction false} TrimStartNonSpace(s: string)
    ensures NonSpace(TrimStart(s)) == NonSpace(s)
    decreases |s|
  {
    if s != [] && IsSpace(s[0]) {
      TrimStartNonSpace(s[1..]);
      assert NonSpace(s) == [] + NonSpace(s[1..]);
    }
  }

  lemma {:induction false} TrimEndNonSpace(t: string)
    ensures NonSpace(TrimEnd(t)) == NonSpace(t)
    decreases |t|
  {
    if t != [] && IsSpace(t[|t| - 1]) {
      var init := t[..|t| - 1];
      TrimEndNonSpace(init);
      assert t == init + [t[|t| - 1]];
      NonSpaceAppend(init, [t[|t| - 1]]);
      assert NonSpace([t[|t| - 1]]) == [];
    }
  }

  /** Trimming touches whitespace only. */
  lemma TrimNonSpace(s: string)
    ensures NonSpace(Trim(s)) == NonSpace(s)
  {
    TrimStartNonSpace(s);
    TrimEndNonSpace(TrimStart(s));
  }

  lemma TrimNoTriple(s: string)
    requires NoTripleNewline(s)
    ensures NoTripleNewline(Trim(s))
  {
    var t := TrimStart(s);
    TrimStartSuffix(s);
    TrimEndPrefixOf(t);
    NoTripleSlice(s, |s| - |t|, |s|);
    assert s[|s| - |t|..|s|] == t;
    NoTripleSlice(t, 0, |TrimEnd(t)|);
    assert t[0..|TrimEnd(t)|] == TrimEnd(t);
  }

  // ---------------------------------------------------------------------------
  // Line-level effects of the collapse and of trimming: no new line appears,
  // except empty ones and lines that differ only by surrounding whitespace.

  /** A line property that looks only at the trimmed line, and never holds of "". */
  ghost predicate TrimInvariant(bad: string -> bool) {
    !bad("") && forall l {:trigger Trim(l)} :: bad(l) == bad(Trim(l))
  }

  lemma {:induction false} CollapseLines(s: string)
    ensures Lines(CollapseNewlines(s))[0] == Lines(s)[0]
    ensures forall l :: l in Lines(CollapseNewlines(s))[1..] ==> l == "" || l in Lines(s)[1..]
    decreases |s|
  {
    var r := CollapseNewlines(s);
    if |s| >= 3 && s[0] == '\n' && s[1] == '\n' && s[2] == '\n' {
      CollapseLines(s[1..]);
      assert Lines(s) == [""] + Lines(s[1..]);
      assert Lines(s[1..]) == [""] + Lines(s[2..]);
    } else if s == [] {
    } else if s[0] == '\n' {
      CollapseLines(s[1..]);
      var t := CollapseNewlines(s[1..]);
      assert r == "\n" + t && r[0] == '\n' && r[1..] == t;
      assert Lines(r) == [""] + Lines(t);
      assert Lines(s) == [""] + Lines(s[1..]);
      forall l | l in Lines(r)[1..] ensures l == "" || l in Lines(s)[1..] {
        assert Lines(r)[1..] == Lines(t);
        var k :| 0 <= k < |Lines(t)| && Lines(t)[k] == l;
        if k > 0 { assert l in Lines(t)[1..]; }
      }
    } else {
      CollapseLines(s[1..]);
      var t := CollapseNewlines(s[1..]);
      assert r == [s[0]] + t && r[0] == s[0] && r[1..] == t;
      assert Lines(r)[1..] == Lines(t)[1..];
      assert Lines(s)[1..] == Lines(s[1..])[1..];
    }
  }

  /** The collapse introduces no line that a trim-invariant property rejects. */
  lemma CollapseKeepsNoLine(s: string, bad: string -> bool)
    requires TrimInvariant(bad)
    requires NoLineSatisfies(s, bad)
    ensures NoLineSatisfies(CollapseNewlines(s), bad)
  {
    CollapseLines(s);
    var ls := Lines(CollapseNewlines(s));
    forall l | l in ls ensures !bad(l) {
      var k :| 0 <= k < |ls| && ls[k] == l;
      if k > 0 { assert l in ls[1..]; }
    }
  }

  lemma TrimOfSpaceCons(c: char, x: string)
    requires IsSpace(c)
    ensures Trim([c] + x) == Trim(x)
  {
    assert ([c] + x)[1..] == x;
  }

  lemma {:induction false} TrimStartSnoc(x: string, c: char)
    requires IsSpace(c)
    ensures TrimStart(x + [c]) == if AllSpace(x) then [] else TrimStart(x) + [c]
  {
    if x != [] {
      assert (x + [c])[0] == x[0] && (x + [c])[1..] == x[1..] + [c];
      TrimStartSnoc(x[1..], c);
    } else {
      assert x + [c] == [c] && [c][1..] == [];
    }
  }

  lemma TrimOfSpaceSnoc(x: string, c: char)
    requires IsSpace(c)
    ensures Trim(x + [c]) == Trim(x)
  {
    TrimStartSnoc(x, c);
    if !AllSpace(x) {
      var u := TrimStart(x);
      assert (u + [c])[..|u + [c]| - 1] == u;
    }
  }

  /** The lines of s with c appended: a newline opens an empty last line, any other
      character extends the last line. */
  function SnocLines(ls: seq<string>, c: char): seq<string>
    requires |ls| >= 1
  {
    if c == '\n' then ls + [""] else ls[..|ls| - 1] + [ls[|ls| - 1] + [c]]
  }

  lemma {:induction false} LinesSnoc(s: string, c: char)
    ensures Lines(s + [c]) == SnocLines(Lines(s), c)
    decreases |s|
  {
    if s == [] {
      assert s + [c] == [c] && [c][1..] == [];
      assert Lines([]) == [""];
      if c != '\n' {
        assert Lines([c]) == [[c] + ""];
        assert "" + [c] == [c] + "";
      }
    } else {
      assert (s + [c])[0] == s[0] && (s + [c])[1..] == s[1..] + [c];
      LinesSnoc(s[1..], c);
      LinesSnocCons(s[0], Lines(s[1..]), c);
    }
  }

  /** One step of LinesSnoc: prefixing a character commutes with SnocLines. */
  lemma LinesSnocCons(h: char, l1: seq<string>, c: char)
    requires |l1| >= 1
    ensures var cons := if h == '\n' then [""] + l1 else [[h] + l1[0]] + l1[1..];
      var r1 := SnocLines(l1, c);
      (if h == '\n' then [""] + r1 else [[h] + r1[0]] + r1[1..]) == SnocLines(cons, c)
  {
    var r1 := SnocLines(l1, c);
    if h != '\n' {
      var cons := [[h] + l1[0]] + l1[1..];
      if c == '\n' {
        assert r1[0] == l1[0] && r1[1..] == l1[1..] + [""];
      } else if |l1| == 1 {
        assert r1 == [l1[0] + [c]];
        assert [h] + (l1[0] + [c]) == ([h] + l1[0]) + [c];
      } else {
        assert r1[0] == l1[0];
        assert r1[1..] == l1[1..|l1| - 1] + [l1[|l1| - 1] + [c]];
        assert cons[..|cons| - 1] == [[h] + l1[0]] + l1[1..|l1| - 1];
      }
    }
  }

  lemma {:induction false} TrimStartKeepsNoLine(s: string, bad: string -> bool)
    requires TrimInvariant(bad)
    requires NoLineSatisfies(s, bad)
    ensures NoLineSatisfies(TrimStart(s), bad)
    decreases |s|
  {
    if s != [] && IsSpace(s[0]) {
      ConsLinesNoLine(s[0], s[1..], bad);
      TrimStartKeepsNoLine(s[1..], bad);
    }
  }

  /** The lines of [h] + x from the lines of x: a newline opens an empty first line,
      any other character extends the first line. */
  function ConsLines(h: char, ls: seq<string>): seq<string>
    requires |ls| >= 1
  {
    if h == '\n' then [""] + ls else [[h] + ls[0]] + ls[1..]
  }

  lemma LinesCons(h: char, x: string)
    ensures Lines([h] + x) == ConsLines(h, Lines(x))
  {
    assert ([h] + x)[0] == h && ([h] + x)[1..] == x;
  }

  /** Dropping a leading whitespace character introduces no rejected line. */
  lemma ConsLinesNoLine(c: char, x: string, bad: string -> bool)
    requires IsSpace(c) && TrimInvariant(bad)
    requires NoLineSatisfies([c] + x, bad)
    ensures NoLineSatisfies(x, bad)
  {
    LinesCons(c, x);
    ConsNoLine(c, Lines(x), bad);
  }

  lemma ConsNoLine(c: char, rest: seq<string>, bad: string -> bool)
    requires |rest| >= 1 && IsSpace(c) && TrimInvariant(bad)
    requires forall l :: l in ConsLines(c, rest) ==> !bad(l)
    ensures forall l :: l in rest ==> !bad(l)
  {
    var all := ConsLines(c, rest);
    if c == '\n' {
      assert forall l :: l in rest ==> l in all;
    } else {
      assert all[0] == [c] + rest[0];
      assert !bad(rest[0]) by {
        TrimOfSpaceCons(c, rest[0]);
        assert bad([c] + rest[0]) == bad(Trim([c] + rest[0]));
        assert bad(rest[0]) == bad(Trim(rest[0]));
      }
      forall l | l in rest ensures !bad(l) {
        var k :| 0 <= k < |rest| && rest[k] == l;
        if k > 0 {
          assert all[k] == l;
        }
      }
    }
  }

  lemma {:induction false} TrimEndKeepsNoLine(s: string, bad: string -> bool)
    requires TrimInvariant(bad)
    requires NoLineSatisfies(s, bad)
    ensures NoLineSatisfies(TrimEnd(s), bad)
    decreases |s|
  {
    if s != [] && IsSpace(s[|s| - 1]) {
      var init := s[..|s| - 1];
      var c := s[|s| - 1];
      assert s == init + [c];
      LinesSnoc(init, c);
      SnocLinesNoLine(Lines(init), c, bad);
      TrimEndKeepsNoLine(init, bad);
    }
  }

  /** Dropping a trailing whitespace character introduces no rejected line. */
  lemma SnocLinesNoLine(ls: seq<string>, c: char, bad: string -> bool)
    requires |ls| >= 1 && IsSpace(c) && TrimInvariant(bad)
    requires forall l :: l in SnocLines(ls, c) ==> !bad(l)
    ensures forall l :: l in ls ==> !bad(l)
  {
    var n := |ls|;
    var snoc := SnocLines(ls, c);
    if c == '\n' {
      assert forall l :: l in ls ==> l in snoc;
    } else {
      var last := ls[n - 1];
      assert snoc == ls[..n - 1] + [last + [c]];
      assert snoc[n - 1] == last + [c];
      assert !bad(last) by {
        TrimOfSpaceSnoc(last, c);
        assert !bad(last + [c]);
        assert bad(last + [c]) == bad(Trim(last + [c]));
        assert bad(last) == bad(Trim(last));
      }
      forall l | l in ls ensures !bad(l) {
        var k :| 0 <= k < n && ls[k] == l;
        if k < n - 1 {
          assert snoc[k] == l;
        }
      }
    }
  }

  /** Trimming the whole text introduces no rejected line. */
  lemma TrimKeepsNoLine(s: string, bad: string -> bool)
    requires TrimInvariant(bad)
    requires NoLineSatisfies(s, bad)
    ensures NoLineSatisfies(Trim(s), bad)
  {
    TrimStartKeepsNoLine(s, bad);
    TrimEndKeepsNoLine(TrimStart(s), bad);
  }

  // ---------------------------------------------------------------------------
  // Character-class preservation: splitting, joining, collapsing and trimming
  // never introduce a character that was not there (joining adds only the separator).

  predicate CharsOK(s: string, ok: char -> bool) {
    forall i :: 0 <= i < |s| ==> ok(s[i])
  }

  predicate AllCharsOK(ls: seq<string>, ok: char -> bool) {
    forall k :: 0 <= k < |ls| ==> CharsOK(ls[k], ok)
  }

  lemma AllCharsOKCons(x: string, rest: seq<string>, ok: char -> bool)
    requires CharsOK(x, ok) && AllCharsOK(rest, ok)
    ensures AllCharsOK([x] + rest, ok)
  {
    forall k | 0 <= k < |[x] + rest|
      ensures CharsOK(([x] + rest)[k], ok)
    {
      if k > 0 { assert ([x] + rest)[k] == rest[k - 1]; }
    }
  }

  lemma {:induction false} LinesCharsOK(s: string, ok: char -> bool)
    requires CharsOK(s, ok)
    ensures AllCharsOK(Lines(s), ok)
  {
    if s != [] {
      LinesCharsOK(s[1..], ok);
      var rest := Lines(s[1..]);
      if s[0] != '\n' {
        assert CharsOK([s[0]] + rest[0], ok);
        assert Lines(s)[1..] == rest[1..];
      }
    }
  }

  lemma {:induction false} JoinCharsOK(ls: seq<string>, sep: string, ok: char -> bool)
    requires AllCharsOK(ls, ok) && CharsOK(sep, ok)
    ensures CharsOK(Join(ls, sep), ok)
  {
    if |ls| > 1 {
      JoinCharsOK(ls[1..], sep, ok);
      assert CharsOK(ls[0], ok);
    }
  }

  lemma {:induction false} CollapseCharsOK(s: string, ok: char -> bool)
    requires CharsOK(s, ok)
    ensures CharsOK(CollapseNewlines(s), ok)
    decreases |s|
  {
    if s != [] {
      CollapseCharsOK(s[1..], ok);
    }
  }

  lemma TrimCharsOK(s: string, ok: char -> bool)
    requires CharsOK(s, ok)
    ensures CharsOK(Trim(s), ok)
  {
    TrimStartCharsOK(s, ok);
    TrimEndCharsOK(TrimStart(s), ok);
  }

  lemma {:induction false} TrimEndCharsOK(s: string, ok: char -> bool)
    requires CharsOK(s, ok)
    ensures CharsOK(TrimEnd(s), ok)
    decreases |s|
  {
    if s != [] && IsSpace(s[|s| - 1]) {
      CharsOKSlice(s, 0, |s| - 1, ok);
      TrimEndCharsOK(s[..|s| - 1], ok);
    }
  }

  // ---------------------------------------------------------------------------
  // Non-whitespace content of joined lines.

  /** The non-whitespace characters of every line, in order. */
  function NonSpaceAll(ls: seq<string>): string {
    if ls == [] then [] else NonSpace(ls[0]) + NonSpaceAll(ls[1..])
  }

  lemma {:induction false} NonSpaceAllAppend(a: seq<string>, b: seq<string>)
    ensures NonSpaceAll(a + b) == NonSpaceAll(a) + NonSpaceAll(b)
  {
    if a == [] {
      assert a + b == b;
    } else {
      assert (a + b)[0] == a[0] && (a + b)[1..] == a[1..] + b;
      NonSpaceAllAppend(a[1..], b);
    }
  }

  lemma {:induction false} NonSpaceAllBlank(ls: seq<string>)
    requires forall k :: 0 <= k < |ls| ==> AllSpace(ls[k])
    ensures NonSpaceAll(ls) == []
  {
    if ls != [] {
      NonSpaceOfAllSpace(ls[0]);
      NonSpaceAllBlank(ls[1..]);
    }
  }

  /** Joining with a newline adds whitespace only. */
  lemma {:induction false} NonSpaceJoin(ls: seq<string>)
    ensures NonSpace(Join(ls, "\n")) == NonSpaceAll(ls)
  {
    if |ls| == 1 {
      assert ls[1..] == [];
    } else if |ls| > 1 {
      NonSpaceJoin(ls[1..]);
      NonSpaceAppend(ls[0] + "\n", Join(ls[1..], "\n"));
      NonSpaceAppend(ls[0], "\n");
      assert NonSpace("\n") == [];
    }
  }

  /** Whitespace inserted between two strings leaves their non-whitespace text as it was. */
  lemma NonSpaceAroundSpaces(x: string, gap: string, y: string)
    requires AllSpace(gap)
    ensures NonSpace(x + gap + y) == NonSpace(x) + NonSpace(y)
  {
    NonSpaceAppend(x + gap, y);
    NonSpaceAppend(x, gap);
    NonSpaceOfAllSpace(gap);
  }

  lemma CharsOKConcat(a: string, b: string, ok: char -> bool)
    requires CharsOK(a, ok) && CharsOK(b, ok)
    ensures CharsOK(a + b, ok)
  {
  }

  lemma {:induction false} TrimStartCharsOK(s: string, ok: char -> bool)
    requires CharsOK(s, ok)
    ensures CharsOK(TrimStart(s), ok)
    decreases |s|
  {
    if s != [] && IsSpace(s[0]) {
      CharsOKSlice(s, 1, |s|, ok);
      assert s[1..|s|] == s[1..];
      TrimStartCharsOK(s[1..], ok);
    }
  }

  lemma CharsOKSlice(s: string, lo: nat, hi: nat, ok: char -> bool)
    requires lo <= hi <= |s| && CharsOK(s, ok)
    ensures CharsOK(s[lo..hi], ok)
  {
    assert forall i :: 0 <= i < hi - lo ==> s[lo..hi][i] == s[lo + i];
  }

  // ---------------------------------------------------------------------------
  // `indexOf`

  /** The first index at or after i where p occurs in s, or -1. */
  function IndexFrom(s: string, p: string, i: nat): (r: int)
    ensures r == -1 ==> forall k :: i <= k <= |s| ==> !OccursAt(s, p, k)
    ensures r != -1 ==> i <= r && OccursAt(s, p, r) && forall k :: i <= k < r ==> !OccursAt(s, p, k)
    decreases |s| + 1 - i
  {
    if i > |s| then -1 else if OccursAt(s, p, i) then i else IndexFrom(s, p, i + 1)
  }

  /** `s.indexOf(p)` */
  function IndexOf(s: string, p: string): (r: int)
    ensures r == -1 <==> !Contains(s, p)
    ensures r != -1 ==> OccursAt(s, p, r) && forall k :: 0 <= k < r ==> !OccursAt(s, p, k)
  {
    IndexFrom(s, p, 0)
  }

  // ---------------------------------------------------------------------------
  // Character filters and run replacement: `s.replace(/[...]+/g, c)`.

  /** The characters of s that satisfy q, in order. */
  function Keep(s: string, q: char -> bool): (r: string)
    ensures |r| <= |s|
  {
    if s == [] then [] else (if q(s[0]) then [s[0]] else []) + Keep(s[1..], q)
  }

  lemma {:induction false} KeepAppend(a: string, b: string, q: char -> bool)
    ensures Keep(a + b, q) == Keep(a, q) + Keep(b, q)
  {
    if a == [] {
      assert a + b == b;
    } else {
      var h := if q(a[0]) then [a[0]] else [];
      assert (a + b)[0] == a[0] && (a + b)[1..] == a[1..] + b;
      assert Keep(a + b, q) == h + Keep(a[1..] + b, q);
      KeepAppend(a[1..], b, q);
      assert h + (Keep(a[1..], q) + Keep(b, q)) == (h + Keep(a[1..], q)) + Keep(b, q);
    }
  }

  lemma {:induction false} KeepNone(s: string, q: char -> bool)
    requires forall i :: 0 <= i < |s| ==> !q(s[i])
    ensures Keep(s, q) == []
  {
    if s != [] {
      KeepNone(s[1..], q);
    }
  }

  /** The filtered characters of a prefix are a prefix of the filtered characters. */
  lemma KeepPrefix(s: string, n: nat, q: char -> bool)
    requires n <= |s|
    ensures Keep(s[..n], q) <= Keep(s, q)
  {
    assert s == s[..n] + s[n..];
    KeepAppend(s[..n], s[n..], q);
  }

  /** s without its leading run of characters satisfying p. */
  function SkipRun(s: string, p: char -> bool): (r: string)
    ensures |r| <= |s|
    ensures forall i :: 0 <= i < |s| - |r| ==> p(s[i])
    ensures r == [] || !p(r[0])
    ensures s != [] && p(s[0]) ==> |r| < |s|
  {
    if s != [] && p(s[0]) then SkipRun(s[1..], p) else s
  }

  /** s without its trailing run of characters satisfying p. */
  function SkipRunEnd(s: string, p: char -> bool): (r: string)
    ensures |r| <= |s|
    ensures forall i :: |r| <= i < |s| ==> p(s[i])
    ensures r == [] || !p(r[|r| - 1])
  {
    if s != [] && p(s[|s| - 1]) then SkipRunEnd(s[..|s| - 1], p) else s
  }

  /** SkipRun takes a suffix. */
  lemma {:induction false} SkipRunSuffix(s: string, p: char -> bool)
    ensures SkipRun(s, p) == s[|s| - |SkipRun(s, p)|..]
    decreases |s|
  {
    if s != [] && p(s[0]) {
      SkipRunSuffix(s[1..], p);
      assert s[1..][|s| - 1 - |SkipRun(s, p)|..] == s[|s| - |SkipRun(s, p)|..];
    }
  }

  /** SkipRunEnd takes a prefix. */
  lemma {:induction false} SkipRunEndPrefix(s: string, p: char -> bool)
    ensures SkipRunEnd(s, p) == s[..|SkipRunEnd(s, p)|]
    decreases |s|
  {
    if s != [] && p(s[|s| - 1]) {
      SkipRunEndPrefix(s[..|s| - 1], p);
      assert s[..|s| - 1][..|SkipRunEnd(s, p)|] == s[..|SkipRunEnd(s, p)|];
    }
  }

  /** Every maximal run of characters satisfying p becomes the single character rep. */
  function ReplaceRuns(s: string, p: char -> bool, rep: char): (r: string)
    ensures |r| <= |s|
    ensures r == [] <==> s == []
    decreases |s|
  {
    if s == [] then []
    else if p(s[0]) then [rep] + ReplaceRuns(SkipRun(s, p), p, rep)
    else [s[0]] + ReplaceRuns(s[1..], p, rep)
  }

  /** No two neighbouring characters both satisfy p. */
  predicate NoAdjacent(s: string, p: char -> bool) {
    forall i :: 0 <= i < |s| - 1 ==> !(p(s[i]) && p(s[i + 1]))
  }

  lemma NoAdjacentSlice(s: string, lo: nat, hi: nat, p: char -> bool)
    requires lo <= hi <= |s| && NoAdjacent(s, p)
    ensures NoAdjacent(s[lo..hi], p)
  {
    assert forall i :: 0 <= i < hi - lo ==> s[lo..hi][i] == s[lo + i];
  }

  /** The result holds rep and the characters of s outside the runs, nothing else. */
  lemma {:induction false} ReplaceRunsCharsOK(s: string, p: char -> bool, rep: char, ok: char -> bool)
    requires ok(rep)
    requires forall i :: 0 <= i < |s| && !p(s[i]) ==> ok(s[i])
    ensures CharsOK(ReplaceRuns(s, p, rep), ok)
    decreases |s|
  {
    if s != [] {
      var t := if p(s[0]) then SkipRun(s, p) else s[1..];
      SkipRunSuffix(s, p);
      assert t == s[|s| - |t|..];
      SuffixPlainOK(s, |s| - |t|, p, ok);
      ReplaceRunsCharsOK(t, p, rep, ok);
    }
  }

  lemma SuffixPlainOK(s: string, k: nat, p: char -> bool, ok: char -> bool)
    requires k <= |s|
    requires forall i :: 0 <= i < |s| && !p(s[i]) ==> ok(s[i])
    ensures forall i :: 0 <= i < |s[k..]| && !p(s[k..][i]) ==> ok(s[k..][i])
  {
    forall i | 0 <= i < |s[k..]| && !p(s[k..][i])
      ensures ok(s[k..][i])
    {
      assert s[k..][i] == s[k + i];
    }
  }

  /** Once runs are replaced by a character of the run class, no two such characters meet. */
  lemma {:induction false} ReplaceRunsNoAdjacent(s: string, p: char -> bool, rep: char)
    requires p(rep)
    ensures NoAdjacent(ReplaceRuns(s, p, rep), p)
    decreases |s|
  {
    if s != [] {
      var t := if p(s[0]) then SkipRun(s, p) else s[1..];
      ReplaceRunsNoAdjacent(t, p, rep);
      var r := ReplaceRuns(s, p, rep);
      var rt := ReplaceRuns(t, p, rep);
      assert r == [r[0]] + rt;
      if p(s[0]) && t != [] {
        assert rt[0] == t[0];
      }
      forall i | 0 <= i < |r| - 1
        ensures !(p(r[i]) && p(r[i + 1]))
      {
        if i > 0 {
          assert r[i] == rt[i - 1] && r[i + 1] == rt[i];
        }
      }
    }
  }

  /** Replacing runs leaves the characters of another class, disjoint from the runs
      and not containing rep, exactly as they were. */
  lemma {:induction false} ReplaceRunsKeep(s: string, p: char -> bool, rep: char, q: char -> bool)
    requires forall i :: 0 <= i < |s| && q(s[i]) ==> !p(s[i])
    requires !q(rep)
    ensures Keep(ReplaceRuns(s, p, rep), q) == Keep(s, q)
    decreases |s|
  {
    if s != [] {
      var r := ReplaceRuns(s, p, rep);
      if p(s[0]) {
        var t := SkipRun(s, p);
        KeepSkipRun(s, p, q);
        ReplaceRunsKeep(t, p, rep, q);
        assert r == [rep] + ReplaceRuns(t, p, rep);
        KeepAppend([rep], ReplaceRuns(t, p, rep), q);
      } else {
        var t := s[1..];
        assert forall i :: 0 <= i < |t| ==> t[i] == s[i + 1];
        ReplaceRunsKeep(t, p, rep, q);
        assert s == [s[0]] + t;
        assert r == [s[0]] + ReplaceRuns(t, p, rep);
        KeepAppend([s[0]], t, q);
        KeepAppend([s[0]], ReplaceRuns(t, p, rep), q);
      }
    }
  }

  /** A leading run of p holds no character of q when q and p are disjoint on s. */
  lemma {:induction false} KeepSkipRun(s: string, p: char -> bool, q: char -> bool)
    requires forall i :: 0 <= i < |s| && q(s[i]) ==> !p(s[i])
    ensures var t := SkipRun(s, p);
      Keep(t, q) == Keep(s, q) && forall i :: 0 <= i < |t| && q(t[i]) ==> !p(t[i])
    decreases |s|
  {
    if s != [] && p(s[0]) {
      var t := s[1..];
      assert forall i :: 0 <= i < |t| ==> t[i] == s[i + 1];
      KeepSkipRun(t, p, q);
      assert Keep(s, q) == [] + Keep(t, q);
    }
  }

  /** A string with no character of the run class is left unchanged. */
  lemma {:induction false} ReplaceRunsNoRun(s: string, p: char -> bool, rep: char)
    requires forall i :: 0 <= i < |s| ==> !p(s[i])
    ensures ReplaceRuns(s, p, rep) == s
    decreases |s|
  {
    if s != [] {
      ReplaceRunsNoRun(s[1..], p, rep);
    }
  }

  /** Skipping a leading run inside x + y stays inside x when y does not start with the
      run's class. */
  lemma {:induction false} SkipRunAppend(x: string, y: string, p: char -> bool)
    requires y == [] || !p(y[0])
    ensures SkipRun(x + y, p) == SkipRun(x, p) + y
    decreases |x|
  {
    if x == [] {
      assert x + y == y;
    } else {
      var xy := x + y;
      assert xy[0] == x[0];
      if p(x[0]) {
        assert xy[1..] == x[1..] + y;
        assert SkipRun(xy, p) == SkipRun(xy[1..], p);
        SkipRunAppend(x[1..], y, p);
      } else {
        assert SkipRun(xy, p) == xy;
      }
    }
  }
  /** One step of replacing the runs of x + y when x starts with a run: rep, followed
      by the replacement of what follows the run. */
  lemma ReplaceRunsStepRun(x: string, y: string, p: char -> bool, rep: char)
    requires x != [] && p(x[0]) && (y == [] || !p(y[0]))
    ensures |SkipRun(x, p)| < |x|
    ensures ReplaceRuns(x + y, p, rep) == [rep] + ReplaceRuns(SkipRun(x, p) + y, p, rep)
  {
    var xy := x + y;
    assert xy[0] == x[0];
    SkipRunAppend(x, y, p);
  }

  /** One step of replacing the runs of x + y when x starts with a plain character. */
  lemma ReplaceRunsStepPlain(x: string, y: string, p: char -> bool, rep: char)
    requires x != [] && !p(x[0])
    ensures ReplaceRuns(x + y, p, rep) == [x[0]] + ReplaceRuns(x[1..] + y, p, rep)
  {
    var xy := x + y;
    assert xy[0] == x[0] && xy[1..] == x[1..] + y;
  }

  lemma StringAssoc(a: string, b: string, c: string)
    ensures a + (b + c) == (a + b) + c
  {
  }

  /** Replacing the runs of x + y, when y has no character of the run class, replaces
      those of x and leaves y alone. */
  lemma {:induction false} ReplaceRunsAppendPlain(x: string, y: string, p: char -> bool, rep: char)
    requires forall i :: 0 <= i < |y| ==> !p(y[i])
    ensures ReplaceRuns(x + y, p, rep) == ReplaceRuns(x, p, rep) + y
    decreases |x|
  {
    if x == [] {
      assert x + y == y;
      ReplaceRunsNoRun(y, p, rep);
    } else {
      if p(x[0]) {
        var rest := SkipRun(x, p);
        ReplaceRunsStepRun(x, y, p, rep);
        ReplaceRunsAppendPlain(rest, y, p, rep);
        StringAssoc([rep], ReplaceRuns(rest, p, rep), y);
      } else {
        var rest := x[1..];
        ReplaceRunsStepPlain(x, y, p, rep);
        ReplaceRunsAppendPlain(rest, y, p, rep);
        StringAssoc([x[0]], ReplaceRuns(rest, p, rep), y);
      }
    }
  }

  // ---------------------------------------------------------------------------
  // Trimming twice, and what trimming keeps.

  lemma TrimIdempotent(s: string)
    ensures Trim(Trim(s)) == Trim(s)
  {
    var t := Trim(s);
    assert TrimStart(t) == t;
    assert TrimEnd(t) == t;
  }

  /** Trimming the end keeps everything up to the last non-whitespace character. */
  lemma {:induction false} TrimEndKeeps(s: string, i: nat)
    requires i < |s| && !IsSpace(s[i])
    ensures i < |TrimEnd(s)|
    decreases |s|
  {
    if IsSpace(s[|s| - 1]) {
      TrimEndKeeps(s[..|s| - 1], i);
    }
  }

  /** Trimming the start of x + y, when x has some non-whitespace, only touches x. */
  lemma {:induction false} TrimStartAppend(x: string, y: string)
    requires !AllSpace(x)
    ensures TrimStart(x + y) == TrimStart(x) + y
    decreases |x|
  {
    assert x != [] && (x + y)[0] == x[0];
    if IsSpace(x[0]) {
      assert (x + y)[1..] == x[1..] + y;
      TrimStartAppend(x[1..], y);
    }
  }

  // ---------------------------------------------------------------------------
  // `findIndex` and `filter` over lines.

  /** The first index at or after i whose line satisfies p, or -1. */
  function FindFirst(ls: seq<string>, i: nat, p: string -> bool): (r: int)
    ensures r == -1 || i <= r < |ls|
    decreases |ls| - i
  {
    if i >= |ls| then -1 else if p(ls[i]) then i else FindFirst(ls, i + 1, p)
  }

  /** FindFirst finds the first line that satisfies p, and -1 means there is none. */
  lemma {:induction false} FindFirstSpec(ls: seq<string>, i: nat, p: string -> bool)
    ensures var r := FindFirst(ls, i, p);
      (r == -1 ==> forall k :: i <= k < |ls| ==> !p(ls[k])) &&
      (r != -1 ==> p(ls[r]) && forall k :: i <= k < r ==> !p(ls[k]))
    decreases |ls| - i
  {
    if i < |ls| && !p(ls[i]) {
      FindFirstSpec(ls, i + 1, p);
    }
  }

  /** `ls.filter(l => !bad(l))` */
  function Without(ls: seq<string>, bad: string -> bool): (r: seq<string>)
    ensures |r| <= |ls|
  {
    if ls == [] then [] else (if bad(ls[0]) then [] else [ls[0]]) + Without(ls[1..], bad)
  }

  /** The filter keeps exactly the lines that are not bad. */
  lemma {:induction false} WithoutSpec(ls: seq<string>, bad: string -> bool)
    ensures forall l :: l in Without(ls, bad) ==> l in ls && !bad(l)
    ensures forall l :: l in ls && !bad(l) ==> l in Without(ls, bad)
  {
    if ls != [] {
      WithoutSpec(ls[1..], bad);
      assert ls == [ls[0]] + ls[1..];
    }
  }

  /** A trimmed string with something in it stays at the front when text is appended. */
  lemma TrimPrefix(x: string, tail: string)
    requires Trim(x) != []
    ensures Trim(x) <= Trim(x + tail)
  {
    assert !AllSpace(x);
    TrimStartAppend(x, tail);
    TrimEndPrefix(TrimStart(x), tail);
  }

  /** Trimming the end of u + tail keeps the trimmed u at the front, when it is not empty. */
  lemma TrimEndPrefix(u: string, tail: string)
    requires TrimEnd(u) != []
    ensures TrimEnd(u) <= TrimEnd(u + tail)
  {
    var t := TrimEnd(u);
    var v := u + tail;
    TrimEndPrefixOf(u);
    assert t == u[..|t|] && |t| <= |u|;
    assert v[|t| - 1] == t[|t| - 1];
    TrimEndKeeps(v, |t| - 1);
    var w := TrimEnd(v);
    TrimEndPrefixOf(v);
    assert w == v[..|w|] && |t| <= |w|;
    assert w[..|t|] == v[..|t|] == u[..|t|];
  }

  /** What Keep returns passes its test. */
  lemma {:induction false} KeepCharsOK(s: string, q: char -> bool)
    ensures CharsOK(Keep(s, q), q)
  {
    if s != [] {
      KeepCharsOK(s[1..], q);
    }
  }

  lemma WithoutCharsOK(ls: seq<string>, bad: string -> bool, ok: char -> bool)
    requires AllCharsOK(ls, ok)
    ensures AllCharsOK(Without(ls, bad), ok)
  {
    var r := Without(ls, bad);
    WithoutSpec(ls, bad);
    forall k | 0 <= k < |r|
      ensures CharsOK(r[k], ok)
    {
      assert r[k] in ls;
    }
  }

  lemma AllCharsOKSlice(ls: seq<string>, lo: nat, hi: nat, ok: char -> bool)
    requires lo <= hi <= |ls| && AllCharsOK(ls, ok)
    ensures AllCharsOK(ls[lo..hi], ok)
  {
    forall k | 0 <= k < hi - lo
      ensures CharsOK(ls[lo..hi][k], ok)
    {
      assert ls[lo..hi][k] == ls[lo + k];
    }
  }

  /** Keep changes nothing when every character passes. */
  lemma {:induction false} KeepAll(s: string, q: char -> bool)
    requires CharsOK(s, q)
    ensures Keep(s, q) == s
  {
    if s != [] {
      KeepAll(s[1..], q);
    }
  }

  /** Filtering out nothing changes nothing. */
  lemma {:induction false} WithoutNone(ls: seq<string>, bad: string -> bool)
    requires forall k :: 0 <= k < |ls| ==> !bad(ls[k])
    ensures Without(ls, bad) == ls
  {
    if ls != [] {
      WithoutNone(ls[1..], bad);
      assert [ls[0]] + ls[1..] == ls;
    }
  }

  /** The collapse leaves a string without three newlines in a row alone. */
  lemma {:induction false} CollapseNoop(s: string)
    requires NoTripleNewline(s)
    ensures CollapseNewlines(s) == s
  {
    if s != [] {
      assert !TripleAt(s, 0);
      NoTripleSlice(s, 1, |s|);
      assert s[1..|s|] == s[1..];
      CollapseNoop(s[1..]);
      assert [s[0]] + s[1..] == s;
    }
  }

  /** A string that starts and ends with non-whitespace is its own trim. */
  lemma TrimNoop(s: string)
    requires IsTrimmed(s)
    ensures Trim(s) == s
  {
    assert TrimStart(s) == s;
    assert TrimEnd(s) == s;
  }

  lemma {:induction false} JoinSnoc(ls: seq<string>, x: string, sep: string)
    requires |ls| >= 1
    ensures Join(ls + [x], sep) == Join(ls, sep) + sep + x
    decreases |ls|
  {
    var l := ls + [x];
    if |ls| == 1 {
      assert l[1..] == [x];
    } else {
      assert l[1..] == ls[1..] + [x];
      JoinSnoc(ls[1..], x, sep);
    }
  }

  /** Two lines joined by one newline hold no run of three newlines. */
  lemma JoinTwoNoTriple(a: string, b: string)
    requires '\n' !in a && '\n' !in b
    ensures NoTripleNewline(a + "\n" + b)
  {
    var s := a + "\n" + b;
    assert forall j :: 0 <= j < |s| && s[j] == '\n' ==> j == |a|;
  }

  /** A join starts with the first character of its first line. */
  lemma JoinFirst(ls: seq<string>, sep: string)
    requires |ls| >= 1 && ls[0] != []
    ensures Join(ls, sep) != [] && Join(ls, sep)[0] == ls[0][0]
  {
    if |ls| > 1 {
      assert Join(ls, sep) == ls[0] + (sep + Join(ls[1..], sep));
    }
  }

  /** A join ends with the last character of its last line. */
  lemma {:induction false} JoinLast(ls: seq<string>, sep: string)
    requires |ls| >= 1 && ls[|ls| - 1] != []
    ensures var j := Join(ls, sep); j != [] && j[|j| - 1] == ls[|ls| - 1][|ls[|ls| - 1]| - 1]
    decreases |ls|
  {
    if |ls| > 1 {
      JoinLast(ls[1..], sep);
    }
  }
}
