/**
 * The JavaScript string built-ins the product extraction relies on, over
 * `string` (a sequence of Unicode scalar values): the `\s` character class and
 * `String.prototype.trim`, the global replacements `/\s+/g -> ' '`,
 * `/&nbsp;/g -> ' '` and `/,/g -> ''`, `replace(',', '.')` with a string
 * pattern (first occurrence only), `split(' ')`, and `parseInt(_, 10)`.
 */
module JsString {

  // ---------------------------------------------------------------------
  // Whitespace and trim
  // ---------------------------------------------------------------------

  /** ECMAScript WhiteSpace and LineTerminator code points: the set matched
      by `\s` and removed by `trim`. */
  predicate IsSpace(c: char) {
    || c == '\t' || c == '\n' || c == '\U{000B}' || c == '\U{000C}' || c == '\r'
    || c == ' ' || c == '\U{00A0}' || c == '\U{1680}'
    || ('\U{2000}' <= c <= '\U{200A}')
    || c == '\U{2028}' || c == '\U{2029}' || c == '\U{202F}' || c == '\U{205F}'
    || c == '\U{3000}' || c == '\U{FEFF}'
  }

  predicate AllSpace(s: string) {
    forall i :: 0 <= i < |s| ==> IsSpace(s[i])
  }

  /** Neither the first nor the last character is whitespace. */
  predicate Trimmed(s: string) {
    s == [] || (!IsSpace(s[0]) && !IsSpace(s[|s| - 1]))
  }

  /** Length of the leading whitespace run. */
  function LeadingSpaces(s: string): (n: nat)
    ensures n <= |s|
    ensures AllSpace(s[..n])
    ensures n < |s| ==> !IsSpace(s[n])
  {
    if s == [] || !IsSpace(s[0]) then 0
    else
      var n := 1 + LeadingSpaces(s[1..]);
      assert s[..n] == [s[0]] + s[1..][..n - 1];
      n
  }

  /** Length of the trailing whitespace run. */
  function TrailingSpaces(s: string): (n: nat)
    ensures n <= |s|
    ensures AllSpace(s[|s| - n..])
    ensures n < |s| ==> !IsSpace(s[|s| - n - 1])
  {
    if s == [] || !IsSpace(s[|s| - 1]) then 0
    else
      var init := s[..|s| - 1];
      var n := 1 + TrailingSpaces(init);
      assert s[|s| - n..] == init[|init| - (n - 1)..] + [s[|s| - 1]];
      n
  }

  /** `String.prototype.trim`: the result is the middle of `s` once a
      whitespace prefix and a whitespace suffix are cut off, and it neither
      starts nor ends with whitespace. */
  function Trim(s: string): (r: string)
    ensures Trimmed(r)
    ensures exists i, j :: 0 <= i <= j <= |s| && r == s[i..j] && AllSpace(s[..i]) && AllSpace(s[j..])
  {
    var i := LeadingSpaces(s);
    var t := s[i..];
    var j := i + |t| - TrailingSpaces(t);
    assert t[..|t| - TrailingSpaces(t)] == s[i..j];
    assert s[j..] == t[|t| - TrailingSpaces(t)..];
    s[i..j]
  }

  /** Trimming a string that is already trimmed changes nothing. */
  lemma TrimOfTrimmed(s: string)
    requires Trimmed(s)
    ensures Trim(s) == s
  {
    var i, j :| 0 <= i <= j <= |s| && Trim(s) == s[i..j] && AllSpace(s[..i]) && AllSpace(s[j..]);
    TrimmedHasNoMargin(s, i, j);
  }

  /** A trimmed string has no whitespace margin to cut. */
  lemma TrimmedHasNoMargin(s: string, i: int, j: int)
    requires 0 <= i <= j <= |s| && AllSpace(s[..i]) && AllSpace(s[j..])
    requires Trimmed(s)
    ensures s[i..j] == s
  {
    if s != [] && (i > 0 || j < |s|) {
      assert false;
    }
  }

  /** Trimming text that is all whitespace leaves nothing. */
  lemma TrimAllSpace(s: string)
    requires AllSpace(s)
    ensures Trim(s) == []
  {
    assert s[..|s|] == s;
    LeadingSpacesIs(s, |s|);
  }

  // ---------------------------------------------------------------------
  // `replace(/\s+/g, ' ')`
  // ---------------------------------------------------------------------

  /** Every whitespace character is a plain space and no two whitespace
      characters are adjacent. */
  predicate Collapsed(s: string) {
    && (forall i :: 0 <= i < |s| && IsSpace(s[i]) ==> s[i] == ' ')
    && (forall i :: 0 <= i < |s| - 1 ==> !IsSpace(s[i]) || !IsSpace(s[i + 1]))
  }

  /** Replaces each maximal run of whitespace by one space. The result is
      collapsed and keeps whitespace at either end exactly when `s` has it. */
  function CollapseSpaces(s: string): (r: string)
    ensures Collapsed(r)
    ensures |r| <= |s| && (r == [] <==> s == [])
    ensures r != [] ==> (IsSpace(r[0]) <==> IsSpace(s[0]))
    ensures r != [] ==> (IsSpace(r[|r| - 1]) <==> IsSpace(s[|s| - 1]))
    decreases |s|
  {
    if s == [] then []
    else if IsSpace(s[0]) then
      var n := LeadingSpaces(s);
      assert n == |s| ==> IsSpace(s[..n][|s| - 1]);
      " " + CollapseSpaces(s[n..])
    else [s[0]] + CollapseSpaces(s[1..])
  }

  /** A collapsed string is a fixed point of the collapse. */
  lemma {:induction false} CollapseOfCollapsed(s: string)
    requires Collapsed(s)
    ensures CollapseSpaces(s) == s
    decreases |s|
  {
    if s != [] {
      CollapsedTail(s);
      CollapseOfCollapsed(s[1..]);
      if IsSpace(s[0]) {
        assert s[0] == ' ';
        assert LeadingSpaces(s) == 1 by {
          assert s[1..] == [] || !IsSpace(s[1..][0]);
        }
        assert CollapseSpaces(s) == " " + CollapseSpaces(s[1..]);
      } else {
        assert CollapseSpaces(s) == [s[0]] + CollapseSpaces(s[1..]);
      }
      assert s == [s[0]] + s[1..];
    }
  }

  /** Two collapsed strings stay collapsed when joined without two
      whitespace characters meeting. */
  lemma CollapsedAppend(a: string, b: string)
    requires Collapsed(a) && Collapsed(b)
    requires a == [] || b == [] || !IsSpace(a[|a| - 1]) || !IsSpace(b[0])
    ensures Collapsed(a + b)
  {
    var s := a + b;
    forall i | 0 <= i < |s| - 1 ensures !IsSpace(s[i]) || !IsSpace(s[i + 1]) {
      if i + 1 < |a| {
        assert s[i] == a[i] && s[i + 1] == a[i + 1];
      } else if i >= |a| {
        assert s[i] == b[i - |a|] && s[i + 1] == b[i + 1 - |a|];
      }
    }
  }

  /** Dropping the first character keeps a string collapsed. */
  lemma CollapsedTail(s: string)
    requires s != [] && Collapsed(s)
    ensures Collapsed(s[1..])
  {
    var t := s[1..];
    forall i | 0 <= i < |t| - 1 ensures !IsSpace(t[i]) || !IsSpace(t[i + 1]) {
      assert t[i] == s[i + 1] && t[i + 1] == s[i + 2];
    }
  }

  /** The non-whitespace characters of `s`, in order. */
  function NonSpace(s: string): (r: string)
    ensures |r| <= |s|
    ensures forall i :: 0 <= i < |r| ==> !IsSpace(r[i])
  {
    if s == [] then [] else (if IsSpace(s[0]) then [] else [s[0]]) + NonSpace(s[1..])
  }

  /** A whitespace prefix contributes no non-whitespace characters. */
  lemma {:induction false} NonSpaceSkipsSpaces(s: string, n: nat)
    requires n <= |s| && AllSpace(s[..n])
    ensures NonSpace(s) == NonSpace(s[n..])
    decreases n
  {
    if n > 0 {
      assert IsSpace(s[..n][0]);
      assert s[1..][..n - 1] == s[1..n];
      NonSpaceSkipsSpaces(s[1..], n - 1);
      assert s[1..][n - 1..] == s[n..];
    }
  }

  /** Trimming removes whitespace only. */
  lemma TrimKeepsText(s: string)
    ensures NonSpace(Trim(s)) == NonSpace(s)
  {
    var i, j :| 0 <= i <= j <= |s| && Trim(s) == s[i..j] && AllSpace(s[..i]) && AllSpace(s[j..]);
    assert s == s[..i] + s[i..j] + s[j..];
    NonSpaceAppend(s[..i] + s[i..j], s[j..]);
    NonSpaceAppend(s[..i], s[i..j]);
    NonSpaceOfSpaces(s[..i]);
    NonSpaceOfSpaces(s[j..]);
  }

  /** Whitespace-only text has no non-whitespace characters. */
  lemma {:induction false} NonSpaceOfSpaces(s: string)
    requires AllSpace(s)
    ensures NonSpace(s) == []
    decreases |s|
  {
    if s != [] {
      NonSpaceOfSpaces(s[1..]);
    }
  }

  /** Taking the non-whitespace characters works piecewise. */
  lemma {:induction false} NonSpaceAppend(a: string, b: string)
    ensures NonSpace(a + b) == NonSpace(a) + NonSpace(b)
    decreases |a|
  {
    if a == [] {
      assert a + b == b;
    } else {
      assert (a + b)[1..] == a[1..] + b;
      NonSpaceAppend(a[1..], b);
    }
  }

  /** Collapsing whitespace keeps every other character, in order. */
  lemma {:induction false} CollapseKeepsText(s: string)
    ensures NonSpace(CollapseSpaces(s)) == NonSpace(s)
    decreases |s|
  {
    if s != [] {
      if IsSpace(s[0]) {
        var n := LeadingSpaces(s);
        CollapseKeepsText(s[n..]);
        NonSpaceSkipsSpaces(s, n);
        var r := CollapseSpaces(s[n..]);
        assert (" " + r)[1..] == r;
      } else {
        CollapseKeepsText(s[1..]);
        var r := CollapseSpaces(s[1..]);
        assert ([s[0]] + r)[1..] == r;
      }
    }
  }

  /** The whitespace run that opens `s` has length `n` when `s[..n]` is all
      whitespace and the character after it, if any, is not. */
  lemma {:induction false} LeadingSpacesIs(s: string, n: nat)
    requires n <= |s| && AllSpace(s[..n]) && (n < |s| ==> !IsSpace(s[n]))
    ensures LeadingSpaces(s) == n
    decreases n
  {
    if n > 0 {
      assert IsSpace(s[..n][0]);
      assert s[1..][..n - 1] == s[1..n];
      assert n < |s| ==> s[1..][n - 1] == s[n];
      LeadingSpacesIs(s[1..], n - 1);
    }
  }

  /** One step of the collapse on text that opens with whitespace. */
  lemma CollapseStepSpace(s: string)
    requires s != [] && IsSpace(s[0])
    ensures CollapseSpaces(s) == " " + CollapseSpaces(s[LeadingSpaces(s)..])
  {
  }

  /** One step of the collapse on text that opens with another character. */
  lemma CollapseStepChar(s: string)
    requires s != [] && !IsSpace(s[0])
    ensures CollapseSpaces(s) == [s[0]] + CollapseSpaces(s[1..])
  {
  }

  /** Concatenation is associative. */
  lemma ConcatAssoc(x: string, y: string, z: string)
    ensures (x + y) + z == x + (y + z)
  {
  }

  /** The leading run covers the whole text only when all of it is whitespace. */
  lemma LeadingSpacesOfAll(s: string)
    ensures LeadingSpaces(s) == |s| ==> AllSpace(s)
  {
    assert s[..|s|] == s;
  }

  /** A whitespace run that ends inside `a` is not lengthened by what follows `a`. */
  lemma LeadingSpacesAppend(a: string, t: string)
    requires LeadingSpaces(a) < |a|
    ensures LeadingSpaces(a + t) == LeadingSpaces(a)
  {
    var n := LeadingSpaces(a);
    assert (a + t)[..n] == a[..n] && (a + t)[n] == a[n];
    LeadingSpacesIs(a + t, n);
  }

  /** The collapse of `a + t` takes its first step inside `a` when `a` opens
      with a whitespace run that ends inside it. */
  lemma CollapseAppendStepSpace(a: string, t: string)
    requires a != [] && IsSpace(a[0]) && LeadingSpaces(a) < |a|
    ensures CollapseSpaces(a + t) == " " + CollapseSpaces(a[LeadingSpaces(a)..] + t)
  {
    LeadingSpacesAppend(a, t);
    assert (a + t)[LeadingSpaces(a)..] == a[LeadingSpaces(a)..] + t;
    assert (a + t)[0] == a[0];
    CollapseStepSpace(a + t);
  }

  /** The collapse of `a + t` takes its first step inside `a` when `a` opens
      with another character. */
  lemma CollapseAppendStepChar(a: string, t: string)
    requires a != [] && !IsSpace(a[0])
    ensures CollapseSpaces(a + t) == [a[0]] + CollapseSpaces(a[1..] + t)
  {
    assert (a + t)[1..] == a[1..] + t;
    assert (a + t)[0] == a[0];
    CollapseStepChar(a + t);
  }

  /** Collapsing works piecewise when the first part does not end in
      whitespace. */
  lemma {:induction false} CollapseAppend(a: string, t: string)
    requires a == [] || !IsSpace(a[|a| - 1])
    ensures CollapseSpaces(a + t) == CollapseSpaces(a) + CollapseSpaces(t)
    decreases |a|
  {
    if a == [] {
      assert a + t == t;
    } else if IsSpace(a[0]) {
      LeadingSpacesOfAll(a);
      var rest := a[LeadingSpaces(a)..];
      assert rest == [] || !IsSpace(rest[|rest| - 1]);
      CollapseAppend(rest, t);
      CollapseAppendStepSpace(a, t);
      CollapseStepSpace(a);
      ConcatAssoc(" ", CollapseSpaces(rest), CollapseSpaces(t));
    } else {
      var rest := a[1..];
      assert rest == [] || !IsSpace(rest[|rest| - 1]);
      CollapseAppend(rest, t);
      CollapseAppendStepChar(a, t);
      CollapseStepChar(a);
      ConcatAssoc([a[0]], CollapseSpaces(rest), CollapseSpaces(t));
    }
  }

  /** A whitespace run that no other whitespace touches becomes exactly one
      space, and the text on either side is collapsed on its own. */
  lemma CollapseRun(a: string, w: string, b: string)
    requires w != [] && AllSpace(w)
    requires a == [] || !IsSpace(a[|a| - 1])
    requires b == [] || !IsSpace(b[0])
    ensures CollapseSpaces(a + w + b) == CollapseSpaces(a) + " " + CollapseSpaces(b)
  {
    ConcatAssoc(a, w, b);
    CollapseAppend(a, w + b);
    CollapseRunAlone(w, b);
    ConcatAssoc(CollapseSpaces(a), " ", CollapseSpaces(b));
  }

  /** A whitespace run followed by text that does not open with whitespace. */
  lemma CollapseRunAlone(w: string, b: string)
    requires w != [] && AllSpace(w)
    requires b == [] || !IsSpace(b[0])
    ensures CollapseSpaces(w + b) == " " + CollapseSpaces(b)
  {
    assert (w + b)[..|w|] == w && (w + b)[|w|..] == b;
    LeadingSpacesIs(w + b, |w|);
    assert IsSpace((w + b)[0]);
    CollapseStepSpace(w + b);
  }

  /** The `trim()` then `replace(/\s+/g, ' ')` stage of the price cleanup. */
  function TrimCollapse(s: string): (r: string)
    ensures Trimmed(r) && Collapsed(r)
  {
    CollapseSpaces(Trim(s))
  }

  /** Running the trim-and-collapse stage twice gives what running it once gives. */
  lemma TrimCollapseIdempotent(s: string)
    ensures TrimCollapse(TrimCollapse(s)) == TrimCollapse(s)
  {
    var r := TrimCollapse(s);
    TrimOfTrimmed(r);
    CollapseOfCollapsed(r);
  }

  // ---------------------------------------------------------------------
  // `replace(/&nbsp;/g, ' ')`
  // ---------------------------------------------------------------------

  const Nbsp: string := "&nbsp;"

  predicate StartsWith(s: string, prefix: string) {
    |prefix| <= |s| && s[..|prefix|] == prefix
  }

  /** `pattern` occurs somewhere in `s`. */
  predicate Contains(s: string, pattern: string) {
    exists i :: 0 <= i <= |s| && StartsWith(s[i..], pattern)
  }

  /** Replaces every occurrence of the literal `&nbsp;`, scanning left to
      right, by one space; a string without it is returned unchanged. */
  function ReplaceNbsp(s: string): (r: string)
    ensures |r| <= |s|
    ensures !Contains(s, Nbsp) ==> r == s
    decreases |s|
  {
    if s == [] then []
    else if StartsWith(s, Nbsp) then
      assert s[0..] == s;
      " " + ReplaceNbsp(s[|Nbsp|..])
    else
      assert !Contains(s, Nbsp) ==> !Contains(s[1..], Nbsp) by {
        if Contains(s[1..], Nbsp) {
          var i :| 0 <= i <= |s[1..]| && StartsWith(s[1..][i..], Nbsp);
          assert s[1..][i..] == s[i + 1..];
        }
      }
      [s[0]] + ReplaceNbsp(s[1..])
  }

  /** Up to the first space the replacement writes, the output copies the input. */
  lemma {:induction false} ReplaceNbspCopiesPrefix(s: string, k: nat)
    requires k <= |ReplaceNbsp(s)|
    ensures ' ' in ReplaceNbsp(s)[..k] || (k <= |s| && s[..k] == ReplaceNbsp(s)[..k])
    decreases |s|
  {
    var r := ReplaceNbsp(s);
    if k > 0 && StartsWith(s, Nbsp) {
      assert r[..k][0] == ' ';
    } else if k > 0 {
      var rt := ReplaceNbsp(s[1..]);
      assert r == [s[0]] + rt;
      assert r[..k] == [s[0]] + rt[..k - 1];
      ReplaceNbspCopiesPrefix(s[1..], k - 1);
      assert s[..k] == [s[0]] + s[1..][..k - 1];
    }
  }

  /** An occurrence is either at the front or in the tail. */
  lemma ContainsStep(s: string, p: string)
    requires s != [] && Contains(s, p)
    ensures StartsWith(s, p) || Contains(s[1..], p)
  {
    var i :| 0 <= i <= |s| && StartsWith(s[i..], p);
    if i > 0 {
      assert s[1..][i - 1..] == s[i..];
    }
  }

  /** The output never starts with `&nbsp;`. */
  lemma NoNbspAtStart(s: string)
    ensures !StartsWith(ReplaceNbsp(s), Nbsp)
  {
    assert |Nbsp| == 6;
    if s != [] && StartsWith(s, Nbsp) {
      assert ReplaceNbsp(s)[0] != Nbsp[0];
    } else if s != [] {
      var rt := ReplaceNbsp(s[1..]);
      assert ReplaceNbsp(s) == [s[0]] + rt;
      if |rt| >= 5 {
        ReplaceNbspCopiesPrefix(s[1..], 5);
        NoNbspAcrossFront(s[0], s[1..], rt);
      }
    }
  }

  /** Prepending a character to a copied prefix cannot form `&nbsp;` when it
      did not form one in the input. */
  lemma NoNbspAcrossFront(c: char, t: string, rt: string)
    requires |rt| >= 5
    requires ' ' in rt[..5] || (5 <= |t| && t[..5] == rt[..5])
    requires !StartsWith([c] + t, Nbsp)
    ensures !StartsWith([c] + rt, Nbsp)
  {
    assert ([c] + rt)[..6] == [c] + rt[..5];
    assert |t| >= 5 ==> ([c] + t)[..6] == [c] + t[..5];
    assert ' ' !in Nbsp[1..];
  }

  /** No `&nbsp;` survives the replacement. */
  lemma {:induction false} ReplaceNbspRemovesAll(s: string)
    ensures !Contains(ReplaceNbsp(s), Nbsp)
    decreases |s|
  {
    var r := ReplaceNbsp(s);
    if r != [] {
      var tail := if StartsWith(s, Nbsp) then s[|Nbsp|..] else s[1..];
      ReplaceNbspRemovesAll(tail);
      assert r[1..] == ReplaceNbsp(tail);
      NoNbspAtStart(s);
      if Contains(r, Nbsp) {
        ContainsStep(r, Nbsp);
        assert false;
      }
    }
  }

  /** One step of the replacement at an occurrence of `&nbsp;`. */
  lemma ReplaceNbspStepMatch(s: string)
    requires StartsWith(s, Nbsp)
    ensures ReplaceNbsp(s) == " " + ReplaceNbsp(s[|Nbsp|..])
  {
  }

  /** One step of the replacement at any other position. */
  lemma ReplaceNbspStepChar(s: string)
    requires s != [] && !StartsWith(s, Nbsp)
    ensures ReplaceNbsp(s) == [s[0]] + ReplaceNbsp(s[1..])
  {
  }

  /** An `&nbsp;` that starts in a non-empty `a` lies inside `a` when what follows `a`
      is empty or starts with `&`, since `&nbsp;` holds `&` only at its start. */
  lemma NoNbspStraddles(a: string, t: string)
    requires a != [] && (t == [] || t[0] == '&')
    ensures StartsWith(a + t, Nbsp) <==> StartsWith(a, Nbsp)
  {
    if |a| >= |Nbsp| {
      assert (a + t)[..|Nbsp|] == a[..|Nbsp|];
    } else if t == [] {
      assert a + t == a;
    } else if |a + t| >= |Nbsp| {
      assert (a + t)[..|Nbsp|][|a|] == '&';
      assert '&' !in Nbsp[1..];
      assert Nbsp[|a|] == Nbsp[1..][|a| - 1];
    }
  }

  /** Replacing works piecewise when the second part is empty or starts
      with `&`: no `&nbsp;` can straddle the boundary. */
  lemma {:induction false} ReplaceNbspAppend(a: string, t: string)
    requires t == [] || t[0] == '&'
    ensures ReplaceNbsp(a + t) == ReplaceNbsp(a) + ReplaceNbsp(t)
    decreases |a|
  {
    if a == [] {
      assert a + t == t;
    } else {
      NoNbspStraddles(a, t);
      if StartsWith(a, Nbsp) {
        var rest := a[|Nbsp|..];
        assert (a + t)[|Nbsp|..] == rest + t;
        ReplaceNbspAppend(rest, t);
        ReplaceNbspStepMatch(a);
        ReplaceNbspStepMatch(a + t);
        ConcatAssoc(" ", ReplaceNbsp(rest), ReplaceNbsp(t));
      } else {
        var rest := a[1..];
        assert (a + t)[1..] == rest + t && (a + t)[0] == a[0];
        ReplaceNbspAppend(rest, t);
        ReplaceNbspStepChar(a);
        ReplaceNbspStepChar(a + t);
        ConcatAssoc([a[0]], ReplaceNbsp(rest), ReplaceNbsp(t));
      }
    }
  }

  /** Each `&nbsp;` becomes one space, and the text on either side of it is
      replaced on its own. */
  lemma ReplaceNbspAround(a: string, b: string)
    ensures ReplaceNbsp(a + Nbsp + b) == ReplaceNbsp(a) + " " + ReplaceNbsp(b)
  {
    ConcatAssoc(a, Nbsp, b);
    ReplaceNbspAppend(a, Nbsp + b);
    assert StartsWith(Nbsp + b, Nbsp) && (Nbsp + b)[|Nbsp|..] == b;
    ReplaceNbspStepMatch(Nbsp + b);
    ConcatAssoc(ReplaceNbsp(a), " ", ReplaceNbsp(b));
  }

  // ---------------------------------------------------------------------
  // `split(' ')`, `replace(',', '.')`, `replace(/,/g, '')`
  // ---------------------------------------------------------------------

  /** Index of the first `c` in `s`, or `|s|` when there is none. */
  function IndexOf(s: string, c: char): (i: nat)
    ensures i <= |s| && c !in s[..i]
    ensures i < |s| ==> s[i] == c
  {
    if s == [] || s[0] == c then 0
    else
      var i := 1 + IndexOf(s[1..], c);
      assert s[..i] == [s[0]] + s[1..][..i - 1];
      i
  }

  /** `Array.prototype.join` with a one-character separator. */
  function Join(parts: seq<string>, sep: char): string {
    if parts == [] then ""
    else if |parts| == 1 then parts[0]
    else parts[0] + [sep] + Join(parts[1..], sep)
  }

  /** `String.prototype.split` on a one-character separator: at least one
      part, none of them containing the separator. */
  function Split(s: string, sep: char): (parts: seq<string>)
    ensures |parts| >= 1
    ensures forall k :: 0 <= k < |parts| ==> sep !in parts[k]
    decreases |s|
  {
    var i := IndexOf(s, sep);
    if i == |s| then [s] else [s[..i]] + Split(s[i + 1..], sep)
  }

  /** Joining the parts with the separator gives back the string. */
  lemma {:induction false} JoinSplit(s: string, sep: char)
    ensures Join(Split(s, sep), sep) == s
    decreases |s|
  {
    var i := IndexOf(s, sep);
    if i < |s| {
      var parts := Split(s[i + 1..], sep);
      assert Split(s, sep) == [s[..i]] + parts;
      assert ([s[..i]] + parts)[1..] == parts;
      assert Join(Split(s, sep), sep) == s[..i] + [sep] + Join(parts, sep);
      JoinSplit(s[i + 1..], sep);
      assert s == s[..i] + [sep] + s[i + 1..];
    }
  }

  /** Splitting the join of separator-free parts gives back the parts. */
  lemma {:induction false} SplitJoin(parts: seq<string>, sep: char)
    requires |parts| >= 1
    requires forall k :: 0 <= k < |parts| ==> sep !in parts[k]
    ensures Split(Join(parts, sep), sep) == parts
    decreases |parts|
  {
    if |parts| > 1 {
      var rest := Join(parts[1..], sep);
      var s := parts[0] + [sep] + rest;
      assert s[..|parts[0]|] == parts[0];
      assert forall k :: 0 <= k < |parts[0]| ==> s[k] == parts[0][k];
      IndexOfFirst(s, sep, |parts[0]|);
      assert s[|parts[0]| + 1..] == rest;
      SplitJoin(parts[1..], sep);
    }
  }

  /** `IndexOf` finds the position of the first occurrence. */
  lemma IndexOfFirst(s: string, c: char, i: nat)
    requires i < |s| && s[i] == c && c !in s[..i]
    ensures IndexOf(s, c) == i
  {
    var j := IndexOf(s, c);
  }

  /** The first part of a split is the longest prefix free of the separator. */
  lemma SplitHead(s: string, sep: char)
    ensures var h := Split(s, sep)[0]; StartsWith(s, h) && sep !in h && (|h| == |s| || s[|h|] == sep)
  {
  }

  /** `replace(from, to)` with a one-character string pattern: only the first
      occurrence of `from` becomes `to`; every other character stays. */
  function ReplaceFirst(s: string, from: char, to: char): (r: string)
    ensures |r| == |s|
    ensures forall k :: 0 <= k < |s| ==> r[k] == if s[k] == from && from !in s[..k] then to else s[k]
  {
    var i := IndexOf(s, from);
    if i == |s| then s
    else
      var r := s[..i] + [to] + s[i + 1..];
      assert forall k :: i < k < |s| ==> s[i] in s[..k] by {
        forall k | i < k < |s| ensures s[i] in s[..k] { assert s[..k][i] == s[i]; }
      }
      assert forall k :: 0 <= k < i ==> from !in s[..k] by {
        forall k | 0 <= k < i ensures from !in s[..k] { assert s[..k] == s[..i][..k]; }
      }
      r
  }

  /** `replace(/c/g, '')`: every `c` is dropped and every other character is
      kept, as often as it occurs in `s`. */
  function RemoveAll(s: string, c: char): (r: string)
    ensures c !in r
    ensures forall x :: x != c ==> multiset(r)[x] == multiset(s)[x]
  {
    if s == [] then []
    else
      assert s == [s[0]] + s[1..];
      (if s[0] == c then [] else [s[0]]) + RemoveAll(s[1..], c)
  }

  /** Removal works piecewise, so characters keep their order. */
  lemma {:induction false} RemoveAllAppend(a: string, b: string, c: char)
    ensures RemoveAll(a + b, c) == RemoveAll(a, c) + RemoveAll(b, c)
    decreases |a|
  {
    if a != [] {
      assert (a + b)[1..] == a[1..] + b;
      RemoveAllAppend(a[1..], b, c);
    } else {
      assert a + b == b;
    }
  }

  // ---------------------------------------------------------------------
  // `parseInt(s, 10)`
  // ---------------------------------------------------------------------

  /** A JavaScript number produced by `parseInt`: an integer or `NaN`. */
  datatype IntResult = NaN | Int(value: int)

  predicate IsDigit(c: char) {
    '0' <= c <= '9'
  }

  predicate AllDigits(s: string) {
    forall i :: 0 <= i < |s| ==> IsDigit(s[i])
  }

  /** Length of the leading run of decimal digits. */
  function DigitPrefix(s: string): (n: nat)
    ensures n <= |s| && AllDigits(s[..n])
    ensures n < |s| ==> !IsDigit(s[n])
  {
    if s == [] || !IsDigit(s[0]) then 0
    else
      var n := 1 + DigitPrefix(s[1..]);
      assert s[..n] == [s[0]] + s[1..][..n - 1];
      n
  }

  /** The value of a decimal numeral, most significant digit first. */
  function DigitsValue(d: string): nat
    requires AllDigits(d)
  {
    if d == [] then 0
    else
      assert IsDigit(d[|d| - 1]);
      10 * DigitsValue(d[..|d| - 1]) + (d[|d| - 1] as int - '0' as int)
  }

  /** `parseInt(s, 10)`: skip leading whitespace, read an optional sign, then
      the longest run of decimal digits; no digits gives `NaN`. */
  function ParseInt10(s: string): (r: IntResult)
    ensures r.Int? ==> exists i :: 0 <= i < |s| && IsDigit(s[i])
  {
    var t := s[LeadingSpaces(s)..];
    var negative := t != [] && t[0] == '-';
    var u := if t != [] && (t[0] == '+' || t[0] == '-') then t[1..] else t;
    var n := DigitPrefix(u);
    if n == 0 then NaN
    else
      assert u[0] == s[|s| - |u|];
      var v: int := DigitsValue(u[..n]);
      Int(if negative then -v else v)
  }

  /** A numeral followed by anything that is not a digit parses to its value. */
  lemma ParseNumeral(d: string, rest: string)
    requires d != [] && AllDigits(d)
    requires rest == [] || !IsDigit(rest[0])
    ensures ParseInt10(d + rest) == Int(DigitsValue(d))
  {
    var s := d + rest;
    assert !IsSpace(s[0]) && s[0] != '-' && s[0] != '+';
    assert LeadingSpaces(s) == 0;
    assert s[..|d|] == d;
    assert forall k :: 0 <= k < |d| ==> IsDigit(s[k]);
    assert |d| < |s| ==> !IsDigit(s[|d|]);
    var n := DigitPrefix(s);
    assert n == |d|;
  }
}
