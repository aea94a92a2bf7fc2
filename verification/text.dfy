/** Python string built-ins the pipeline relies on, over `string` = `seq<char>`:
    `in`, slicing, `str.split(sep)`, `sep.join(parts)`, `str.split()` and
    `str.replace` of one character.
 */
module Text {

  /** `c.isspace()`: the characters Python's argument-less `str.split()`
      treats as separators. */
  predicate IsSpace(c: char) {
    || c == ' '
    || '\t' <= c <= '\r'
    || '\U{1C}' <= c <= '\U{1F}'
    || c == '\U{85}' || c == '\U{A0}' || c == '\U{1680}'
    || '\U{2000}' <= c <= '\U{200A}'
    || c == '\U{2028}' || c == '\U{2029}' || c == '\U{202F}' || c == '\U{205F}'
    || c == '\U{3000}'
  }

  /** `p in s` for strings: p occurs in s as a contiguous block. */
  predicate Contains(s: string, p: string)
    decreases |s|
  {
    p <= s || (|s| > 0 && Contains(s[1..], p))
  }

  /** `s[0:n]`: Python slicing clamps an end past the string. */
  function Prefix(s: string, n: nat): (r: string)
    ensures r <= s
    ensures |r| == if n <= |s| then n else |s|
  {
    if n <= |s| then s[..n] else s
  }

  /** `s[lo:hi]` for non-negative bounds, clamped as Python does. */
  function Slice(s: string, lo: nat, hi: nat): (r: string)
    ensures |r| <= |s|
    ensures lo <= hi <= |s| ==> r == s[lo..hi]
  {
    if hi <= lo || |s| <= lo then [] else if hi <= |s| then s[lo..hi] else s[lo..]
  }

  /** `s[lo:]` for a non-negative start. */
  function Drop(s: string, lo: nat): (r: string)
    ensures lo <= |s| ==> r == s[lo..]
    ensures |s| <= lo ==> r == []
  {
    if lo <= |s| then s[lo..] else []
  }

  /** `s.index(c)`: the position of the first `c`. */
  function IndexOf(s: string, c: char): (k: nat)
    requires c in s
    ensures k < |s| && s[k] == c && c !in s[..k]
    decreases |s|
  {
    if s[0] == c then 0
    else
      var k := 1 + IndexOf(s[1..], c);
      assert s[..k] == [s[0]] + s[1..][..k - 1];
      k
  }

  /** The first `c` of `a + [c] + b` is the one after `a` when `a` has none. */
  lemma IndexOfFirst(a: string, c: char, b: string)
    requires c !in a
    ensures IndexOf(a + [c] + b, c) == |a|
  {
    var s := a + [c] + b;
    assert s[..|a|] == a;
    assert s[|a|] == c;
  }

  /** The number of occurrences of `c` in `s`. */
  function CountChar(s: string, c: char): nat
    decreases |s|
  {
    if |s| == 0 then 0 else (if s[0] == c then 1 else 0) + CountChar(s[1..], c)
  }

  /** A character that does not occur is counted zero times. */
  lemma {:induction false} CountCharAbsent(s: string, c: char)
    requires c !in s
    ensures CountChar(s, c) == 0
    decreases |s|
  {
    if |s| > 0 {
      CountCharAbsent(s[1..], c);
    }
  }

  /** Occurrences in a concatenation add up. */
  lemma {:induction false} CountCharAppend(a: string, b: string, c: char)
    ensures CountChar(a + b, c) == CountChar(a, c) + CountChar(b, c)
    decreases |a|
  {
    if |a| > 0 {
      assert (a + b)[1..] == a[1..] + b;
      CountCharAppend(a[1..], b, c);
    } else {
      assert a + b == b;
    }
  }

  /** Inserting one occurrence of a character counts one more. */
  lemma CountCharInsert(a: string, b: string, c: char)
    ensures CountChar(a + [c] + b, c) == CountChar(a, c) + CountChar(b, c) + 1
  {
    CountCharAppend(a + [c], b, c);
    CountCharAppend(a, [c], c);
    assert [c][1..] == [];
  }

  /** `s.split(sep)` for a non-empty separator: the pieces between the
      occurrences of `sep` found left to right without overlap. */
  function SplitOn(s: string, sep: string): (r: seq<string>)
    requires |sep| > 0
    ensures |r| >= 1
    decreases |s|
  {
    if |s| == 0 then [[]]
    else if sep <= s then [[]] + SplitOn(s[|sep|..], sep)
    else
      var rest := SplitOn(s[1..], sep);
      [[s[0]] + rest[0]] + rest[1..]
  }

  /** `sep.join(parts)`. */
  function JoinOn(parts: seq<string>, sep: string): string
  {
    if |parts| == 0 then []
    else if |parts| == 1 then parts[0]
    else parts[0] + sep + JoinOn(parts[1..], sep)
  }

  /** Putting one character in front of the first piece puts it in front of the join. */
  lemma JoinConsFirst(c: char, rest: seq<string>, sep: string)
    requires |rest| >= 1
    ensures JoinOn([[c] + rest[0]] + rest[1..], sep) == [c] + JoinOn(rest, sep)
  {
    var parts := [[c] + rest[0]] + rest[1..];
    if |rest| > 1 {
      assert parts[1..] == rest[1..];
      assert JoinOn(parts, sep) == ([c] + rest[0]) + sep + JoinOn(rest[1..], sep);
      assert JoinOn(rest, sep) == rest[0] + sep + JoinOn(rest[1..], sep);
    }
  }

  /** Joining the pieces of a split with the same separator restores the text. */
  lemma {:induction false} JoinSplit(s: string, sep: string)
    requires |sep| > 0
    ensures JoinOn(SplitOn(s, sep), sep) == s
    decreases |s|, 1
  {
    if |s| == 0 {
    } else if sep <= s {
      JoinSplitSep(s, sep);
    } else {
      JoinSplitChar(s, sep);
    }
  }

  /** `JoinSplit` when the text starts with the separator: an empty first piece. */
  lemma {:induction false} JoinSplitSep(s: string, sep: string)
    requires |sep| > 0 && |s| > 0 && sep <= s
    ensures JoinOn(SplitOn(s, sep), sep) == s
    decreases |s|, 0
  {
    var rest := SplitOn(s[|sep|..], sep);
    assert SplitOn(s, sep) == [[]] + rest;
    JoinSplit(s[|sep|..], sep);
    assert ([[]] + rest)[1..] == rest;
    assert JoinOn([[]] + rest, sep) == [] + sep + JoinOn(rest, sep);
    assert s == sep + s[|sep|..];
  }

  /** `JoinSplit` otherwise: the first character goes to the first piece. */
  lemma {:induction false} JoinSplitChar(s: string, sep: string)
    requires |sep| > 0 && |s| > 0 && !(sep <= s)
    ensures JoinOn(SplitOn(s, sep), sep) == s
    decreases |s|, 0
  {
    var rest := SplitOn(s[1..], sep);
    assert SplitOn(s, sep) == [[s[0]] + rest[0]] + rest[1..];
    JoinSplit(s[1..], sep);
    JoinConsFirst(s[0], rest, sep);
    assert s == [s[0]] + s[1..];
  }

  /** Splitting on one character gives one piece more than the number of
      occurrences of that character, and no piece contains it. */
  lemma {:induction false} SplitCharPieces(s: string, c: char)
    ensures |SplitOn(s, [c])| == CountChar(s, c) + 1
    ensures forall k | 0 <= k < |SplitOn(s, [c])| :: c !in SplitOn(s, [c])[k]
    decreases |s|
  {
    if |s| == 0 {
    } else if [c] <= s {
      assert s[0] == c;
      SplitCharPieces(s[1..], c);
      assert s[|[c]|..] == s[1..];
    } else {
      assert s[0] != c;
      SplitCharPieces(s[1..], c);
    }
  }

  /** A text without the separator character splits into itself. */
  lemma {:induction false} SplitNoSep(s: string, c: char)
    requires c !in s
    ensures SplitOn(s, [c]) == [s]
    decreases |s|
  {
    if |s| > 0 {
      assert s[0] != c;
      SplitNoSep(s[1..], c);
      assert [s[0]] + s[1..] == s;
    }
  }

  /** The first piece of a split on `c` runs up to the first `c`. */
  lemma {:induction false} SplitAtSep(a: string, b: string, c: char)
    requires c !in a
    ensures SplitOn(a + [c] + b, [c]) == [a] + SplitOn(b, [c])
    decreases |a|
  {
    var s := a + [c] + b;
    if |a| == 0 {
      assert s == [c] + b;
      assert [c] <= s && s[1..] == b;
    } else {
      assert s[0] == a[0] != c;
      assert s[1..] == a[1..] + [c] + b;
      SplitAtSep(a[1..], b, c);
      assert [a[0]] + a[1..] == a;
    }
  }

  /** The first piece of a split runs up to the separator when the text
      before it holds no character that could start the separator. */
  lemma {:induction false} SplitAtLead(a: string, b: string, sep: string)
    requires |sep| > 0 && sep[0] !in a
    ensures SplitOn(a + sep + b, sep) == [a] + SplitOn(b, sep)
    decreases |a|
  {
    var s := a + sep + b;
    if |a| == 0 {
      assert s == sep + b;
      assert sep <= s && s[|sep|..] == b;
    } else {
      assert s[0] == a[0] != sep[0];
      assert s[1..] == a[1..] + sep + b;
      SplitAtLead(a[1..], b, sep);
      assert [a[0]] + a[1..] == a;
    }
  }

  /** A text that does not contain the separator splits into itself. */
  lemma {:induction false} SplitWithout(s: string, sep: string)
    requires |sep| > 0 && !Contains(s, sep)
    ensures SplitOn(s, sep) == [s]
    decreases |s|
  {
    if |s| > 0 {
      SplitWithout(s[1..], sep);
      assert [s[0]] + s[1..] == s;
    }
  }

  /** A prefix free of the separator character belongs to the first piece. */
  lemma {:induction false} SplitFreePrefix(x: string, y: string, c: char)
    requires c !in x
    ensures SplitOn(x + y, [c]) == [x + SplitOn(y, [c])[0]] + SplitOn(y, [c])[1..]
    decreases |x|
  {
    var s := x + y;
    var r := SplitOn(y, [c]);
    if |x| == 0 {
      assert s == y && x + r[0] == r[0];
      assert [r[0]] + r[1..] == r;
    } else {
      assert s[0] == x[0] != c;
      assert s[1..] == x[1..] + y;
      SplitFreePrefix(x[1..], y, c);
      assert [x[0]] + (x[1..] + r[0]) == x + r[0];
    }
  }

  /** The text with every `a` replaced by `b` (`s.replace(a, b)` for single characters). */
  function ReplaceChar(s: string, a: char, b: char): (r: string)
    ensures |r| == |s|
    ensures forall i | 0 <= i < |s| :: r[i] == if s[i] == a then b else s[i]
  {
    seq(|s|, i requires 0 <= i < |s| => if s[i] == a then b else s[i])
  }

  /** `b.join(s.split(a))` is the character replacement of `a` by `b`. */
  lemma {:induction false} JoinSplitIsReplace(s: string, a: char, b: char)
    ensures JoinOn(SplitOn(s, [a]), [b]) == ReplaceChar(s, a, b)
    decreases |s|
  {
    if |s| == 0 {
    } else if [a] <= s {
      JoinSplitIsReplace(s[1..], a, b);
      assert s[|[a]|..] == s[1..];
      assert ReplaceChar(s, a, b) == [b] + ReplaceChar(s[1..], a, b);
    } else {
      JoinSplitIsReplace(s[1..], a, b);
      JoinConsFirst(s[0], SplitOn(s[1..], [a]), [b]);
      assert ReplaceChar(s, a, b) == [s[0]] + ReplaceChar(s[1..], a, b);
    }
  }

  // ---- `str.split()` without arguments ------------------------------------

  /** No character of `w` is whitespace. */
  predicate NoSpace(w: string) {
    forall i | 0 <= i < |w| :: !IsSpace(w[i])
  }

  /** A word of `str.split()`: non-empty and free of whitespace. */
  predicate IsWord(w: string) {
    |w| > 0 && NoSpace(w)
  }

  /** The words of `s` when the word being read so far is `cur`. */
  function WordsFrom(s: string, cur: string): (r: seq<string>)
    requires NoSpace(cur)
    ensures forall k | 0 <= k < |r| :: IsWord(r[k])
    decreases |s|
  {
    if |s| == 0 then (if cur == [] then [] else [cur])
    else if IsSpace(s[0]) then (if cur == [] then [] else [cur]) + WordsFrom(s[1..], [])
    else WordsFrom(s[1..], cur + [s[0]])
  }

  /** `s.split()`: the maximal runs of non-whitespace characters, in order. */
  function Words(s: string): (r: seq<string>)
    ensures forall k | 0 <= k < |r| :: IsWord(r[k])
  {
    WordsFrom(s, [])
  }

  /** The non-whitespace characters of `s`, in order. */
  function NonSpace(s: string): (r: string)
    ensures NoSpace(r)
    ensures |r| <= |s|
    decreases |s|
  {
    if |s| == 0 then []
    else if IsSpace(s[0]) then NonSpace(s[1..])
    else [s[0]] + NonSpace(s[1..])
  }

  /** The concatenation of a list of strings (`''.join(ws)`). */
  function Concat(ws: seq<string>): string
  {
    if |ws| == 0 then [] else ws[0] + Concat(ws[1..])
  }

  lemma {:induction false} ConcatAppend(a: seq<string>, b: seq<string>)
    ensures Concat(a + b) == Concat(a) + Concat(b)
    decreases |a|
  {
    if |a| == 0 {
      assert a + b == b;
    } else {
      assert (a + b)[1..] == a[1..] + b;
      ConcatAppend(a[1..], b);
    }
  }

  lemma NonSpaceAppend(a: string, b: string)
    ensures NonSpace(a + b) == NonSpace(a) + NonSpace(b)
    decreases |a|
  {
    if |a| == 0 {
      assert a + b == b;
    } else {
      assert (a + b)[1..] == a[1..] + b;
      NonSpaceAppend(a[1..], b);
    }
  }

  lemma NonSpaceOfNoSpace(w: string)
    requires NoSpace(w)
    ensures NonSpace(w) == w
    decreases |w|
  {
    if |w| > 0 {
      NonSpaceOfNoSpace(w[1..]);
    }
  }

  /** The words hold exactly the non-whitespace characters, in order. */
  lemma {:induction false} WordsFromContent(s: string, cur: string)
    requires NoSpace(cur)
    ensures Concat(WordsFrom(s, cur)) == cur + NonSpace(s)
    decreases |s|, 1
  {
    if |s| == 0 {
    } else if IsSpace(s[0]) {
      WordsFromContentSpace(s, cur);
    } else {
      WordsFromContentChar(s, cur);
    }
  }

  /** `WordsFromContent` at a whitespace character: the word read so far ends. */
  lemma {:induction false} WordsFromContentSpace(s: string, cur: string)
    requires NoSpace(cur) && |s| > 0 && IsSpace(s[0])
    ensures Concat(WordsFrom(s, cur)) == cur + NonSpace(s)
    decreases |s|, 0
  {
    var head: seq<string> := if cur == [] then [] else [cur];
    assert WordsFrom(s, cur) == head + WordsFrom(s[1..], []);
    assert NonSpace(s) == NonSpace(s[1..]);
    WordsFromContent(s[1..], []);
    ConcatAppend(head, WordsFrom(s[1..], []));
    assert Concat(head) == cur;
  }

  /** `WordsFromContent` at any other character: it extends the current word. */
  lemma {:induction false} WordsFromContentChar(s: string, cur: string)
    requires NoSpace(cur) && |s| > 0 && !IsSpace(s[0])
    ensures Concat(WordsFrom(s, cur)) == cur + NonSpace(s)
    decreases |s|, 0
  {
    assert WordsFrom(s, cur) == WordsFrom(s[1..], cur + [s[0]]);
    assert NonSpace(s) == [s[0]] + NonSpace(s[1..]);
    WordsFromContent(s[1..], cur + [s[0]]);
    assert cur + [s[0]] + NonSpace(s[1..]) == cur + ([s[0]] + NonSpace(s[1..]));
  }

  lemma JoinStartsWithFirst(ws: seq<string>, sep: string)
    requires |ws| >= 1
    ensures ws[0] <= JoinOn(ws, sep)
  {
  }

  /** Joining words with single spaces gives a collapsed text. */
  lemma {:induction false} JoinWordsCollapsed(ws: seq<string>)
    requires forall k | 0 <= k < |ws| :: IsWord(ws[k])
    ensures Collapsed(JoinOn(ws, " "))
    decreases |ws|
  {
    if |ws| <= 1 {
    } else {
      var w := ws[0];
      var tail := JoinOn(ws[1..], " ");
      JoinWordsCollapsed(ws[1..]);
      JoinStartsWithFirst(ws[1..], " ");
      assert |tail| > 0 && !IsSpace(tail[0]) by {
        assert IsWord(ws[1]);
        assert tail[0] == ws[1][0];
      }
      var t := w + " " + tail;
      assert JoinOn(ws, " ") == t;
      forall i | 0 <= i < |t| && IsSpace(t[i])
        ensures t[i] == ' ' && 0 < i < |t| - 1 && !IsSpace(t[i + 1])
      {
        if i < |w| {
          assert false;
        } else if i == |w| {
          assert t[i + 1] == tail[0];
        } else {
          assert t[i] == tail[i - |w| - 1];
          assert t[i + 1] == tail[i - |w|];
        }
      }
    }
  }

  /** The shape `' '.join(s.split())` produces: every whitespace character is
      a single `' '` with a non-whitespace character on each side. */
  predicate Collapsed(t: string) {
    forall i | 0 <= i < |t| && IsSpace(t[i]) :: t[i] == ' ' && 0 < i < |t| - 1 && !IsSpace(t[i + 1])
  }

  lemma {:induction false} WordsFromPrefix(w: string, rest: string, cur: string)
    requires NoSpace(w) && NoSpace(cur)
    ensures WordsFrom(w + rest, cur) == WordsFrom(rest, cur + w)
    decreases |w|
  {
    if |w| == 0 {
      assert w + rest == rest;
      assert cur + w == cur;
    } else {
      assert (w + rest)[0] == w[0];
      assert (w + rest)[1..] == w[1..] + rest;
      WordsFromPrefix(w[1..], rest, cur + [w[0]]);
      assert cur + [w[0]] + w[1..] == cur + w;
    }
  }

  /** Splitting a space-joined list of words gives the words back. */
  lemma {:induction false} WordsOfJoin(ws: seq<string>)
    requires forall k | 0 <= k < |ws| :: IsWord(ws[k])
    ensures Words(JoinOn(ws, " ")) == ws
    decreases |ws|
  {
    if |ws| == 0 {
    } else if |ws| == 1 {
      WordsFromPrefix(ws[0], [], []);
      assert ws[0] + [] == ws[0];
      assert [] + ws[0] == ws[0];
    } else {
      var w := ws[0];
      var tail := JoinOn(ws[1..], " ");
      assert JoinOn(ws, " ") == w + (" " + tail);
      WordsFromPrefix(w, " " + tail, []);
      assert [] + w == w;
      assert (" " + tail)[1..] == tail;
      WordsOfJoin(ws[1..]);
      assert ws == [w] + ws[1..];
    }
  }

  /** Joining space-free words with spaces loses only the spaces. */
  lemma {:induction false} NonSpaceOfJoin(ws: seq<string>)
    requires forall k | 0 <= k < |ws| :: NoSpace(ws[k])
    ensures NonSpace(JoinOn(ws, " ")) == Concat(ws)
    decreases |ws|
  {
    if |ws| == 0 {
    } else if |ws| == 1 {
      NonSpaceOfNoSpace(ws[0]);
    } else {
      NonSpaceOfJoin(ws[1..]);
      NonSpaceAppend(ws[0] + " ", JoinOn(ws[1..], " "));
      NonSpaceAppend(ws[0], " ");
      NonSpaceOfNoSpace(ws[0]);
    }
  }
}
