/**
 * The JavaScript string operations the cron explainer and the time formatter
 * rely on: `trim`, `split` on a whitespace regular expression and on a single
 * character, `join`, `toLowerCase` on ASCII names, `parseInt` with no radix,
 * and the decimal printing of an integer-valued number.
 */
module Text {
  import opened Optional

  /** ECMAScript white space and line terminators: what `\s` and `trim` match. */
  predicate IsSpace(c: char) {
    || c == '\t' || c == '\n' || c == '\U{000B}' || c == '\U{000C}' || c == '\r'
    || c == ' ' || c == '\U{00A0}' || c == '\U{1680}'
    || ('\U{2000}' <= c <= '\U{200A}')
    || c == '\U{2028}' || c == '\U{2029}' || c == '\U{202F}' || c == '\U{205F}'
    || c == '\U{3000}' || c == '\U{FEFF}'
  }

  /** A non-empty run of non-space characters. */
  predicate IsWord(w: string) {
    w != [] && forall i :: 0 <= i < |w| ==> !IsSpace(w[i])
  }

  predicate NoSpace(w: string) {
    forall i :: 0 <= i < |w| ==> !IsSpace(w[i])
  }

  /** `s` with its leading white space removed. */
  function TrimStart(s: string): (r: string)
    ensures |r| <= |s| && r == s[|s| - |r|..]
    ensures r == [] || !IsSpace(r[0])
  {
    if s != [] && IsSpace(s[0]) then TrimStart(s[1..]) else s
  }

  /** What `TrimStart` removes is white space. */
  lemma {:induction false} TrimStartSkipsSpace(s: string)
    ensures forall i :: 0 <= i < |s| - |TrimStart(s)| ==> IsSpace(s[i])
  {
    if s != [] && IsSpace(s[0]) {
      TrimStartSkipsSpace(s[1..]);
      assert forall i :: 1 <= i < |s| ==> s[i] == s[1..][i - 1];
    }
  }

  /** `s` with its trailing white space removed. */
  function TrimEnd(s: string): (r: string)
    ensures |r| <= |s| && r == s[..|r|]
    ensures r == [] || !IsSpace(r[|r| - 1])
  {
    if s != [] && IsSpace(s[|s| - 1]) then TrimEnd(s[..|s| - 1]) else s
  }

  /** What `TrimEnd` removes is white space. */
  lemma {:induction false} TrimEndSkipsSpace(s: string)
    ensures forall i :: |TrimEnd(s)| <= i < |s| ==> IsSpace(s[i])
  {
    if s != [] && IsSpace(s[|s| - 1]) {
      TrimEndSkipsSpace(s[..|s| - 1]);
      assert forall i :: 0 <= i < |s| - 1 ==> s[i] == s[..|s| - 1][i];
    }
  }

  /** `String.prototype.trim`. */
  function Trim(s: string): (r: string)
    ensures r == [] || (!IsSpace(r[0]) && !IsSpace(r[|r| - 1]))
  {
    TrimEnd(TrimStart(s))
  }

  /** `r` is the slice `s[i..j]`, and everything of `s` outside it is white space. */
  predicate SpaceFramed(s: string, i: int, j: int, r: string) {
    && 0 <= i <= j <= |s|
    && r == s[i..j]
    && (forall k :: 0 <= k < i ==> IsSpace(s[k]))
    && (forall k :: j <= k < |s| ==> IsSpace(s[k]))
  }

  /** Trimming removes exactly the white space at both ends: the result is the
      slice of `s` between a run of white space at the start and one at the end. */
  lemma TrimRemovesSpaceEnds(s: string)
    ensures SpaceFramed(s, |s| - |TrimStart(s)|, |s| - |TrimStart(s)| + |Trim(s)|, Trim(s))
  {
    TrimFramed(s, TrimStart(s), Trim(s));
  }

  /** The framing of `Trim`, with its two stages named. */
  lemma TrimFramed(s: string, t: string, r: string)
    requires t == TrimStart(s) && r == TrimEnd(t)
    ensures SpaceFramed(s, |s| - |t|, |s| - |t| + |r|, r)
  {
    TrimStartSkipsSpace(s);
    TrimEndSkipsSpace(t);
    SliceOfSuffix(s, t, r);
  }

  /** A prefix `r` of the suffix `t` of `s`, where `s` before `t` and `t` after `r`
      are white space, is a slice of `s` framed by white space. */
  lemma SliceOfSuffix(s: string, t: string, r: string)
    requires |t| <= |s| && t == s[|s| - |t|..]
    requires |r| <= |t| && r == t[..|r|]
    requires forall k :: 0 <= k < |s| - |t| ==> IsSpace(s[k])
    requires forall k :: |r| <= k < |t| ==> IsSpace(t[k])
    ensures SpaceFramed(s, |s| - |t|, |s| - |t| + |r|, r)
  {
    var i := |s| - |t|;
    forall k | i + |r| <= k < |s|
      ensures IsSpace(s[k])
    {
      assert s[k] == t[k - i];
    }
  }

  /** Trimming leaves nothing exactly when the string is all white space. */
  lemma TrimBlank(s: string)
    ensures Trim(s) == [] <==> forall i :: 0 <= i < |s| ==> IsSpace(s[i])
  {
    TrimStartSkipsSpace(s);
    TrimEndSkipsSpace(TrimStart(s));
  }

  /** A string with no white space at either end is its own trim. */
  lemma TrimUnspaced(s: string)
    requires s != [] && !IsSpace(s[0]) && !IsSpace(s[|s| - 1])
    ensures Trim(s) == s
  {
  }

  /** The longest prefix of `s` free of white space. */
  function WordPrefix(s: string): (w: string)
    ensures |w| <= |s| && w == s[..|w|]
    ensures |w| < |s| ==> IsSpace(s[|w|])
  {
    if s == [] || IsSpace(s[0]) then [] else [s[0]] + WordPrefix(s[1..])
  }

  /** The word prefix holds no white space. */
  lemma {:induction false} WordPrefixNoSpace(s: string)
    ensures NoSpace(WordPrefix(s))
  {
    if s != [] && !IsSpace(s[0]) {
      WordPrefixNoSpace(s[1..]);
      var w := WordPrefix(s);
      assert forall i :: 1 <= i < |w| ==> w[i] == WordPrefix(s[1..])[i - 1];
    }
  }

  /** `s.split(/\s+/)`: the pieces between maximal runs of white space,
      with an empty piece before a leading run and after a trailing one. */
  function SplitOnSpaceRuns(s: string): (ws: seq<string>)
    ensures |ws| >= 1
    decreases |s|
  {
    var w := WordPrefix(s);
    if |w| == |s| then [s]
    else
      var t := TrimStart(s[|w|..]);
      assert s[|w|..][0] == s[|w|];
      [w] + SplitOnSpaceRuns(t)
  }

  /** `s.split(/\s+/)` is the word prefix followed by the split of what
      follows the white space after it. */
  lemma SplitOnSpaceRunsStep(s: string)
    requires |WordPrefix(s)| < |s|
    ensures var w := WordPrefix(s);
            SplitOnSpaceRuns(s) == [w] + SplitOnSpaceRuns(TrimStart(s[|w|..]))
  {
  }

  /** No piece of `s.split(/\s+/)` holds white space. */
  lemma {:induction false} SplitOnSpaceRunsNoSpace(s: string)
    ensures forall i :: 0 <= i < |SplitOnSpaceRuns(s)| ==> NoSpace(SplitOnSpaceRuns(s)[i])
    decreases |s|
  {
    var w := WordPrefix(s);
    WordPrefixNoSpace(s);
    if |w| < |s| {
      var t := TrimStart(s[|w|..]);
      SplitOnSpaceRunsNoSpace(t);
      SplitOnSpaceRunsStep(s);
      ConsNoSpace(w, SplitOnSpaceRuns(t));
    }
  }

  lemma ConsNoSpace(w: string, ts: seq<string>)
    requires NoSpace(w) && forall i :: 0 <= i < |ts| ==> NoSpace(ts[i])
    ensures forall i :: 0 <= i < |[w] + ts| ==> NoSpace(([w] + ts)[i])
  {
    assert forall i :: 1 <= i < |[w] + ts| ==> ([w] + ts)[i] == ts[i - 1];
  }

  /** When `s` neither starts nor ends with white space, no piece of
      `s.split(/\s+/)` is empty. */
  lemma {:induction false} SplitOnSpaceRunsNonEmpty(s: string)
    requires s != [] && !IsSpace(s[0]) && !IsSpace(s[|s| - 1])
    ensures forall i :: 0 <= i < |SplitOnSpaceRuns(s)| ==> SplitOnSpaceRuns(s)[i] != []
    decreases |s|
  {
    var w := WordPrefix(s);
    if |w| < |s| {
      var r := s[|w|..];
      var t := TrimStart(r);
      assert r[|r| - 1] == s[|s| - 1];
      TrimStartSkipsSpace(r);
      assert t != [] && t[|t| - 1] == r[|r| - 1];
      SplitOnSpaceRunsNonEmpty(t);
      SplitOnSpaceRunsStep(s);
      ConsNonEmpty(w, SplitOnSpaceRuns(t));
    }
  }

  lemma ConsNonEmpty(w: string, ts: seq<string>)
    requires w != [] && forall i :: 0 <= i < |ts| ==> ts[i] != []
    ensures forall i :: 0 <= i < |[w] + ts| ==> ([w] + ts)[i] != []
  {
    assert forall i :: 1 <= i < |[w] + ts| ==> ([w] + ts)[i] == ts[i - 1];
  }

  /** `s.trim().split(/\s+/)`: the whitespace-separated tokens of `s`
      (a single empty token when `s` is blank). */
  function Tokens(s: string): (ws: seq<string>)
    ensures |ws| >= 1
  {
    SplitOnSpaceRuns(Trim(s))
  }

  /** A blank string has the single token "". */
  lemma TokensOfBlank(s: string)
    requires forall i :: 0 <= i < |s| ==> IsSpace(s[i])
    ensures Tokens(s) == [""]
  {
    TrimBlank(s);
  }

  /** A string with a non-space character has only words as tokens. */
  lemma TokensAreWords(s: string)
    requires exists i :: 0 <= i < |s| && !IsSpace(s[i])
    ensures forall i :: 0 <= i < |Tokens(s)| ==> IsWord(Tokens(s)[i])
  {
    TrimBlank(s);
    SplitOnSpaceRunsNoSpace(Trim(s));
    SplitOnSpaceRunsNonEmpty(Trim(s));
  }

  /** `ws.join(sep)`. */
  function Join(ws: seq<string>, sep: string): string
  {
    if |ws| == 0 then []
    else if |ws| == 1 then ws[0]
    else ws[0] + sep + Join(ws[1..], sep)
  }

  lemma JoinCons(p: string, ps: seq<string>, sep: string)
    requires |ps| >= 1
    ensures Join([p] + ps, sep) == p + sep + Join(ps, sep)
  {
    assert ([p] + ps)[1..] == ps;
  }

  /** The position of the first `c` in `s`, or `|s|` when there is none. */
  function IndexOf(s: string, c: char): (i: nat)
    ensures i <= |s|
    ensures i < |s| ==> s[i] == c
  {
    if s == [] || s[0] == c then 0 else 1 + IndexOf(s[1..], c)
  }

  /** Nothing before the first `c` is a `c`. */
  lemma {:induction false} BeforeIndexOf(s: string, c: char)
    ensures forall j :: 0 <= j < IndexOf(s, c) ==> s[j] != c
  {
    if s != [] && s[0] != c {
      BeforeIndexOf(s[1..], c);
      assert forall j :: 1 <= j < IndexOf(s, c) ==> s[j] == s[1..][j - 1];
    }
  }

  /** The first `c` is at `k` when `s[k]` is `c` and nothing before it is. */
  lemma {:induction false} IndexOfIs(s: string, c: char, k: nat)
    requires k <= |s|
    requires k < |s| ==> s[k] == c
    requires forall j :: 0 <= j < k ==> s[j] != c
    ensures IndexOf(s, c) == k
  {
    if s != [] && s[0] != c {
      IndexOfIs(s[1..], c, k - 1);
    }
  }

  /** `s.split(c)` for a one-character separator: the pieces between
      consecutive occurrences of `c`. */
  function SplitOn(s: string, c: char): (ps: seq<string>)
    ensures |ps| >= 1
    ensures c in s ==> |ps| >= 2
    decreases |s|
  {
    var i := IndexOf(s, c);
    BeforeIndexOf(s, c);
    if i == |s| then [s] else [s[..i]] + SplitOn(s[i + 1..], c)
  }

  /** No piece of a split holds the separator, and there is more than one piece
      exactly when the separator occurs. */
  lemma {:induction false} SplitOnPieces(s: string, c: char)
    ensures forall k :: 0 <= k < |SplitOn(s, c)| ==> c !in SplitOn(s, c)[k]
    ensures c in s <==> |SplitOn(s, c)| >= 2
    decreases |s|
  {
    var i := IndexOf(s, c);
    PrefixBeforeIndex(s, c);
    if i == |s| {
      assert s[..i] == s;
    } else {
      SplitOnPieces(s[i + 1..], c);
    }
  }

  /** A string without the separator splits into itself. */
  lemma SplitOnAbsent(s: string, c: char)
    requires c !in s
    ensures SplitOn(s, c) == [s]
  {
    IndexOfIs(s, c, |s|);
  }

  /** Joining two non-empty lists one after the other is joining each and
      putting one separator between them. */
  lemma {:induction false} JoinAppend(a: seq<string>, b: seq<string>, sep: string)
    requires |a| >= 1 && |b| >= 1
    ensures Join(a + b, sep) == Join(a, sep) + sep + Join(b, sep)
    decreases |a|
  {
    if |a| == 1 {
      JoinCons(a[0], b, sep);
      assert a + b == [a[0]] + b;
    } else {
      JoinAppend(a[1..], b, sep);
      JoinCons(a[0], a[1..] + b, sep);
      JoinCons(a[0], a[1..], sep);
      assert a + b == [a[0]] + (a[1..] + b);
      assert a == [a[0]] + a[1..];
    }
  }

  /** Joining the pieces of a split with the separator gives the string back. */
  lemma {:induction false} JoinSplitOn(s: string, c: char)
    ensures Join(SplitOn(s, c), [c]) == s
    decreases |s|
  {
    var i := IndexOf(s, c);
    if i < |s| {
      JoinSplitOn(s[i + 1..], c);
      JoinCons(s[..i], SplitOn(s[i + 1..], c), [c]);
      assert s == s[..i] + [c] + s[i + 1..];
    }
  }

  /** The first separator in `a + [c] + b` is the first one in `a`, or the added one. */
  lemma IndexOfConcat(a: string, c: char, b: string)
    ensures IndexOf(a + [c] + b, c) == IndexOf(a, c)
  {
    var u := a + [c] + b;
    var i := IndexOf(a, c);
    BeforeIndexOf(a, c);
    assert forall j :: 0 <= j < |a| ==> u[j] == a[j];
    assert u[|a|] == c;
    IndexOfIs(u, c, i);
  }

  /** A split at the first separator: the piece before it, then the rest split. */
  lemma SplitOnAt(s: string, c: char)
    requires IndexOf(s, c) < |s|
    ensures SplitOn(s, c) == [s[..IndexOf(s, c)]] + SplitOn(s[IndexOf(s, c) + 1..], c)
  {
  }

  /** With no separator in `a`, the added one ends the first piece. */
  lemma SplitOnConcatAbsent(a: string, c: char, b: string)
    requires c !in a
    ensures SplitOn(a + [c] + b, c) == [a] + SplitOn(b, c)
  {
    var u := a + [c] + b;
    IndexOfConcat(a, c, b);
    SplitOnAbsent(a, c);
    assert IndexOf(u, c) == |a| by {
      IndexOfIs(a, c, |a|);
    }
    SplitOnAt(u, c);
    assert u[..|a|] == a;
    assert u[|a| + 1..] == b;
  }

  /** With a separator in `a`, the first piece comes from `a` alone. */
  lemma SplitOnConcatPresent(a: string, c: char, b: string)
    requires IndexOf(a, c) < |a|
    ensures var i := IndexOf(a, c);
            SplitOn(a + [c] + b, c) == [a[..i]] + SplitOn(a[i + 1..] + [c] + b, c)
  {
    var u := a + [c] + b;
    var i := IndexOf(a, c);
    var v := a[i + 1..] + [c] + b;
    IndexOfConcat(a, c, b);
    assert u[..i] == a[..i] && u[i + 1..] == v;
    SplitOnAtEq(u, c, i, a[..i], v);
  }

  lemma SplitOnAtEq(s: string, c: char, i: nat, head: string, rest: string)
    requires i == IndexOf(s, c) && i < |s|
    requires s[..i] == head && s[i + 1..] == rest
    ensures SplitOn(s, c) == [head] + SplitOn(rest, c)
  {
    SplitOnAt(s, c);
  }

  /** Splitting at one more separator splits the two sides independently. */
  lemma {:induction false} SplitOnConcat(a: string, c: char, b: string)
    ensures SplitOn(a + [c] + b, c) == SplitOn(a, c) + SplitOn(b, c)
    decreases |a|
  {
    var i := IndexOf(a, c);
    if i == |a| {
      PrefixBeforeIndex(a, c);
      assert a[..i] == a;
      SplitOnConcatAbsent(a, c, b);
      SplitOnAbsent(a, c);
    } else {
      var head, a' := a[..i], a[i + 1..];
      SplitOnConcatPresent(a, c, b);
      SplitOnAt(a, c);
      SplitOnConcat(a', c, b);
      assert [head] + (SplitOn(a', c) + SplitOn(b, c)) == ([head] + SplitOn(a', c)) + SplitOn(b, c);
    }
  }

  /** Splitting a join of separator-free pieces gives the pieces back. */
  lemma {:induction false} SplitOnJoin(ps: seq<string>, c: char)
    requires |ps| >= 1
    requires forall i :: 0 <= i < |ps| ==> c !in ps[i]
    ensures SplitOn(Join(ps, [c]), c) == ps
    decreases |ps|
  {
    if |ps| == 1 {
      var s := ps[0];
      JoinSplitOn(s, c);
      assert |SplitOn(s, c)| == 1;
      assert Join(SplitOn(s, c), [c]) == SplitOn(s, c)[0];
    } else {
      SplitOnJoin(ps[1..], c);
      SplitOnJoin([ps[0]], c);
      SplitOnConcat(ps[0], c, Join(ps[1..], [c]));
      assert [ps[0]] + ps[1..] == ps;
    }
  }

  /** `s` with every `c` replaced by `r`. */
  function ReplaceChar(s: string, c: char, r: string): string
  {
    if s == [] then []
    else (if s[0] == c then r else [s[0]]) + ReplaceChar(s[1..], c, r)
  }

  lemma {:induction false} ReplaceCharConcat(x: string, y: string, c: char, r: string)
    ensures ReplaceChar(x + y, c, r) == ReplaceChar(x, c, r) + ReplaceChar(y, c, r)
  {
    if x != [] {
      ReplaceCharConcat(x[1..], y, c, r);
      assert (x + y)[1..] == x[1..] + y;
    } else {
      assert x + y == y;
    }
  }

  lemma {:induction false} ReplaceCharAbsent(x: string, c: char, r: string)
    requires c !in x
    ensures ReplaceChar(x, c, r) == x
  {
    if x != [] {
      ReplaceCharAbsent(x[1..], c, r);
      assert x == [x[0]] + x[1..];
    }
  }

  /** Joining the pieces of a split with another separator replaces the character. */
  lemma {:induction false} JoinSplitIsReplace(s: string, c: char, r: string)
    ensures Join(SplitOn(s, c), r) == ReplaceChar(s, c, r)
    decreases |s|
  {
    var i := IndexOf(s, c);
    PrefixBeforeIndex(s, c);
    if i == |s| {
      assert s[..i] == s;
      ReplaceCharAbsent(s, c, r);
      assert SplitOn(s, c) == [s];
    } else {
      var head, rest := s[..i], s[i + 1..];
      JoinSplitIsReplace(rest, c, r);
      var ps := SplitOn(rest, c);
      assert SplitOn(s, c) == [head] + ps;
      JoinCons(head, ps, r);
      assert Join(SplitOn(s, c), r) == head + r + ReplaceChar(rest, c, r);
      ReplaceCharAtFirst(s, c, r);
    }
  }

  /** Nothing before the first `c` is a `c`. */
  lemma PrefixBeforeIndex(s: string, c: char)
    ensures c !in s[..IndexOf(s, c)]
  {
    var i := IndexOf(s, c);
    BeforeIndexOf(s, c);
    forall j | 0 <= j < i
      ensures s[..i][j] != c
    {
      assert s[..i][j] == s[j];
    }
  }

  /** Replacing in a string with a `c` at `i` and none before it. */
  lemma ReplaceCharAtFirst(s: string, c: char, r: string)
    requires IndexOf(s, c) < |s|
    ensures ReplaceChar(s, c, r) ==
              s[..IndexOf(s, c)] + r + ReplaceChar(s[IndexOf(s, c) + 1..], c, r)
  {
    var i := IndexOf(s, c);
    var head, rest := s[..i], s[i + 1..];
    var tail := [c] + rest;
    assert tail[0] == c && tail[1..] == rest;
    assert ReplaceChar(tail, c, r) == r + ReplaceChar(rest, c, r);
    PrefixBeforeIndex(s, c);
    ReplaceCharAbsent(head, c, r);
    assert s == head + tail;
    ReplaceCharConcat(head, tail, c, r);
    assert ReplaceChar(s, c, r) == head + (r + ReplaceChar(rest, c, r));
  }

  /** The first and the last word of a join are its ends. */
  lemma {:induction false} JoinEnds(ws: seq<string>, sep: string)
    requires |ws| >= 1
    requires forall i :: 0 <= i < |ws| ==> ws[i] != []
    ensures Join(ws, sep) != []
    ensures Join(ws, sep)[0] == ws[0][0]
    ensures Join(ws, sep)[|Join(ws, sep)| - 1] == ws[|ws| - 1][|ws[|ws| - 1]| - 1]
    decreases |ws|
  {
    if |ws| > 1 {
      JoinEnds(ws[1..], sep);
    }
  }

  lemma {:induction false} WordPrefixOfWord(w: string, rest: string)
    requires NoSpace(w)
    requires rest == [] || IsSpace(rest[0])
    ensures WordPrefix(w + rest) == w
  {
    if w == [] {
      assert w + rest == rest;
    } else {
      WordPrefixOfWord(w[1..], rest);
      assert (w + rest)[1..] == w[1..] + rest;
      assert [w[0]] + w[1..] == w;
    }
  }

  /** A word, one space, then text starting with a non-space splits off the word. */
  lemma SplitOnSpaceRunsCons(w: string, tail: string)
    requires IsWord(w)
    requires tail != [] && !IsSpace(tail[0])
    ensures SplitOnSpaceRuns(w + " " + tail) == [w] + SplitOnSpaceRuns(tail)
  {
    var s := w + " " + tail;
    assert s == w + (" " + tail);
    WordPrefixOfWord(w, " " + tail);
    assert s[|w|..] == " " + tail;
    assert TrimStart(" " + tail) == TrimStart(tail);
    assert TrimStart(tail) == tail;
  }

  /** Words joined by spaces start with a non-space. */
  lemma JoinOfWordsStarts(ws: seq<string>)
    requires |ws| >= 1
    requires forall i :: 0 <= i < |ws| ==> IsWord(ws[i])
    ensures Join(ws, " ") != [] && !IsSpace(Join(ws, " ")[0])
  {
    JoinEnds(ws, " ");
    assert IsWord(ws[0]);
  }

  /** Splitting words joined by single spaces splits off the first word. */
  lemma SplitOnSpaceRunsOfJoinStep(ws: seq<string>)
    requires |ws| >= 2
    requires forall i :: 0 <= i < |ws| ==> IsWord(ws[i])
    ensures forall i :: 0 <= i < |ws[1..]| ==> IsWord(ws[1..][i])
    ensures SplitOnSpaceRuns(Join(ws, " ")) == [ws[0]] + SplitOnSpaceRuns(Join(ws[1..], " "))
  {
    var rest := ws[1..];
    assert forall i :: 0 <= i < |rest| ==> rest[i] == ws[i + 1];
    JoinOfWordsStarts(rest);
    assert IsWord(ws[0]);
    SplitOnSpaceRunsCons(ws[0], Join(rest, " "));
  }

  /** Splitting words joined by single spaces gives the words back. */
  lemma {:induction false} SplitOnSpaceRunsOfJoin(ws: seq<string>)
    requires |ws| >= 1
    requires forall i :: 0 <= i < |ws| ==> IsWord(ws[i])
    ensures SplitOnSpaceRuns(Join(ws, " ")) == ws
    decreases |ws|
  {
    if |ws| == 1 {
      WordPrefixOfWord(ws[0], []);
      assert ws[0] + [] == ws[0];
    } else {
      SplitOnSpaceRunsOfJoinStep(ws);
      SplitOnSpaceRunsOfJoin(ws[1..]);
      assert [ws[0]] + ws[1..] == ws;
    }
  }

  /** Tokenising words joined by single spaces gives the words back. */
  lemma TokensOfJoin(ws: seq<string>)
    requires |ws| >= 1
    requires forall i :: 0 <= i < |ws| ==> IsWord(ws[i])
    ensures Tokens(Join(ws, " ")) == ws
  {
    var s := Join(ws, " ");
    JoinEnds(ws, " ");
    assert IsWord(ws[0]) && IsWord(ws[|ws| - 1]);
    TrimUnspaced(s);
    SplitOnSpaceRunsOfJoin(ws);
  }

  /** One character lower-cased: an ASCII capital becomes the small letter at
      the same place in the alphabet; every other character is kept. */
  function LowerChar(c: char): (d: char)
    ensures 'A' <= c <= 'Z' ==> 'a' <= d <= 'z' && d as int - 'a' as int == c as int - 'A' as int
    ensures !('A' <= c <= 'Z') ==> d == c
  {
    if 'A' <= c <= 'Z' then (c as int - 'A' as int + 'a' as int) as char else c
  }

  /** ASCII `toLowerCase`: every character lower-cased in place. */
  function ToLowerAscii(s: string): (r: string)
    ensures |r| == |s|
    ensures forall i :: 0 <= i < |s| ==> r[i] == LowerChar(s[i])
    ensures forall i :: 0 <= i < |s| ==> !('A' <= r[i] <= 'Z')
  {
    seq(|s|, i requires 0 <= i < |s| => LowerChar(s[i]))
  }

  // ---- integers as text ----

  predicate IsDecimalDigit(c: char) { '0' <= c <= '9' }

  function DigitChar(d: nat): (c: char)
    requires d < 10
    ensures IsDecimalDigit(c)
  {
    ('0' as int + d) as char
  }

  /** The decimal numeral of `n`, as JavaScript prints an integer-valued number. */
  function NatToString(n: nat): (s: string)
    ensures s != []
    ensures forall i :: 0 <= i < |s| ==> IsDecimalDigit(s[i])
  {
    if n < 10 then [DigitChar(n)] else NatToString(n / 10) + [DigitChar(n % 10)]
  }

  function IntToString(i: int): (s: string)
    ensures IsWord(s)
    ensures s[0] == '-' <==> i < 0
  {
    if i < 0 then "-" + NatToString(-i) else NatToString(i)
  }

  /** The value of `c` as a digit in base `radix` (10 or 16), if it is one. */
  function DigitValue(c: char, radix: nat): Option<nat>
  {
    if '0' <= c <= '9' then Some(c as int - '0' as int)
    else if radix == 16 && 'a' <= c <= 'f' then Some(c as int - 'a' as int + 10)
    else if radix == 16 && 'A' <= c <= 'F' then Some(c as int - 'A' as int + 10)
    else None
  }

  /** The longest prefix of `s` made of base-`radix` digits. */
  function DigitPrefix(s: string, radix: nat): (d: string)
    ensures |d| <= |s| && d == s[..|d|]
    ensures forall i :: 0 <= i < |d| ==> DigitValue(d[i], radix).Some?
  {
    if s == [] || DigitValue(s[0], radix).None? then [] else [s[0]] + DigitPrefix(s[1..], radix)
  }

  /** The number a string of base-`radix` digits denotes. */
  function DigitsValue(d: string, radix: nat): nat
    requires forall i :: 0 <= i < |d| ==> DigitValue(d[i], radix).Some?
  {
    if d == [] then 0
    else DigitsValue(d[..|d| - 1], radix) * radix + DigitValue(d[|d| - 1], radix).value
  }

  /** `parseInt(s)` with no radix: leading white space and one sign are skipped,
      a `0x`/`0X` prefix selects base 16, then the longest run of digits is read;
      no digit at all is `NaN`, written `None`. */
  function ParseInt(s: string): Option<int>
  {
    var t := TrimStart(s);
    var sign := if t != [] && t[0] == '-' then -1 else 1;
    var u := if t != [] && (t[0] == '-' || t[0] == '+') then t[1..] else t;
    var hex := |u| >= 2 && u[0] == '0' && (u[1] == 'x' || u[1] == 'X');
    var radix := if hex then 16 else 10;
    var d := DigitPrefix(if hex then u[2..] else u, radix);
    if d == [] then None else Some(sign * DigitsValue(d, radix))
  }

  lemma {:induction false} DigitsValueOfNatToString(n: nat)
    ensures DigitsValue(NatToString(n), 10) == n
  {
    if n >= 10 {
      DigitsValueOfNatToString(n / 10);
      var s := NatToString(n);
      assert s[..|s| - 1] == NatToString(n / 10);
    }
  }

  lemma {:induction false} DigitPrefixOfDigits(s: string)
    requires forall i :: 0 <= i < |s| ==> IsDecimalDigit(s[i])
    ensures DigitPrefix(s, 10) == s
  {
    if s != [] {
      DigitPrefixOfDigits(s[1..]);
    }
  }

  /** A string that does not start with white space is its own `TrimStart`. */
  lemma TrimStartNoLeadingSpace(s: string)
    requires s == [] || !IsSpace(s[0])
    ensures TrimStart(s) == s
  {
  }

  /** A numeral has no `0x` prefix. */
  lemma NumeralNotHex(u: string)
    requires forall i :: 0 <= i < |u| ==> IsDecimalDigit(u[i])
    ensures !(|u| >= 2 && u[0] == '0' && (u[1] == 'x' || u[1] == 'X'))
  {
    if |u| >= 2 {
      assert IsDecimalDigit(u[1]);
    }
  }

  /** `parseInt` reads back the numeral `IntToString` prints. */
  lemma ParseIntOfIntToString(i: int)
    ensures ParseInt(IntToString(i)) == Some(i)
  {
    var s := IntToString(i);
    var n: nat := if i < 0 then -i else i;
    var digits := NatToString(n);
    assert !IsSpace(s[0]) by {
      assert IsWord(s);
    }
    TrimStartNoLeadingSpace(s);
    var u := if i < 0 then s[1..] else s;
    assert u == digits;
    NumeralNotHex(u);
    DigitPrefixOfDigits(digits);
    DigitsValueOfNatToString(n);
  }
}
