/**
 * The JavaScript string operations the interpreter relies on: `trim`, splitting a
 * trimmed line on runs of white space, `split` on one character, `join`, and case
 * conversion (on ASCII letters).
 */
module Text {

  /** JavaScript's white space and line terminators: what `trim` strips and `\s` matches. */
  predicate IsSpace(c: char)
  {
    c == '\t' || c == '\n' || c == '\U{000B}' || c == '\U{000C}' || c == '\r' || c == ' '
    || c == '\U{00A0}' || c == '\U{1680}' || ('\U{2000}' <= c <= '\U{200A}')
    || c == '\U{2028}' || c == '\U{2029}' || c == '\U{202F}' || c == '\U{205F}'
    || c == '\U{3000}' || c == '\U{FEFF}'
  }

  /** The number of white-space characters `s` starts with. */
  function LeadLen(s: string): (n: nat)
    ensures n <= |s| && (n == |s| || !IsSpace(s[n]))
    ensures forall i :: 0 <= i < n ==> IsSpace(s[i])
  {
    if |s| > 0 && IsSpace(s[0]) then 1 + LeadLen(s[1..]) else 0
  }

  /** The number of white-space characters `s` ends with. */
  function TailLen(s: string): (n: nat)
    ensures n <= |s| && (n == |s| || !IsSpace(s[|s| - n - 1]))
    ensures forall i :: |s| - n <= i < |s| ==> IsSpace(s[i])
  {
    if |s| > 0 && IsSpace(s[|s| - 1]) then 1 + TailLen(s[..|s| - 1]) else 0
  }

  /** `s` without its leading white space. */
  function TrimStart(s: string): (r: string)
    ensures |r| <= |s| && r == s[|s| - |r|..]
    ensures forall i :: 0 <= i < |s| - |r| ==> IsSpace(s[i])
    ensures r == [] || !IsSpace(r[0])
  {
    s[LeadLen(s)..]
  }

  /** `s` without its trailing white space. */
  function TrimEnd(s: string): (r: string)
    ensures |r| <= |s| && r == s[..|r|]
    ensures forall i :: |r| <= i < |s| ==> IsSpace(s[i])
    ensures r == [] || !IsSpace(r[|r| - 1])
  {
    s[..|s| - TailLen(s)]
  }

  /** `s.trim()`: `s` with white space stripped from both ends. */
  function Trim(s: string): (r: string)
    ensures r == [] || (!IsSpace(r[0]) && !IsSpace(r[|r| - 1]))
    ensures r == [] <==> forall i :: 0 <= i < |s| ==> IsSpace(s[i])
  {
    TrimEnd(TrimStart(s))
  }

  /** What `trim` keeps is one infix of the line, and only white space lies outside it. */
  lemma TrimIsInfix(s: string)
    ensures var k := |s| - |TrimStart(s)|; var r := Trim(s);
              0 <= k <= |s| - |r| && r == s[k..k + |r|]
              && (forall i :: 0 <= i < k ==> IsSpace(s[i]))
              && (forall i :: k + |r| <= i < |s| ==> IsSpace(s[i]))
  {
    TrimKeepsInfix(s);
    TrimDropsTail(s);
  }

  /** What `trim` keeps sits in `s` right after the leading white space. */
  lemma TrimKeepsInfix(s: string)
    ensures var k := |s| - |TrimStart(s)|; var r := Trim(s);
              0 <= k <= |s| - |r| && r == s[k..k + |r|]
  {
    TrimWithinTrimStart(s);
    PrefixOfSuffix(s, TrimStart(s), Trim(s));
  }

  /** What `trim` keeps is a prefix of `s` without its leading white space. */
  lemma TrimWithinTrimStart(s: string)
    ensures |Trim(s)| <= |TrimStart(s)| && Trim(s) == TrimStart(s)[..|Trim(s)|]
  {
    var t := TrimStart(s);
    assert Trim(s) == TrimEnd(t);
  }

  /** Everything after what `trim` keeps is white space. */
  lemma TrimDropsTail(s: string)
    ensures var k := |s| - |TrimStart(s)|;
              forall i :: k + |Trim(s)| <= i < |s| ==> IsSpace(s[i])
  {
    var t := TrimStart(s);
    var r := TrimEnd(t);
    var k := |s| - |t|;
    forall i | k + |r| <= i < |s| ensures IsSpace(s[i]) {
      assert s[i] == t[i - k];
    }
  }

  /** A prefix of a suffix of `s` is an infix of `s`. */
  lemma PrefixOfSuffix(s: string, t: string, r: string)
    requires |t| <= |s| && t == s[|s| - |t|..] && |r| <= |t| && r == t[..|r|]
    ensures r == s[|s| - |t|..|s| - |t| + |r|]
  {
  }

  /** The length of the run of non-space characters that starts `s`. */
  function WordEnd(s: string): (n: nat)
    ensures n <= |s|
    ensures forall i :: 0 <= i < n ==> !IsSpace(s[i])
    ensures n == |s| || IsSpace(s[n])
  {
    if |s| == 0 || IsSpace(s[0]) then 0 else 1 + WordEnd(s[1..])
  }

  /** A word: a non-empty string without white space. */
  predicate IsWord(w: string)
  {
    w != [] && forall i :: 0 <= i < |w| ==> !IsSpace(w[i])
  }

  /** The maximal runs of non-space characters of `s`, in order. For a trimmed, non-empty
      `s` this is `s.split(/\s+/)`. */
  function Words(s: string): (ws: seq<string>)
    ensures ws == [] <==> forall i :: 0 <= i < |s| ==> IsSpace(s[i])
    ensures forall k :: 0 <= k < |ws| ==> IsWord(ws[k])
    decreases |s|
  {
    if s == [] then []
    else if IsSpace(s[0]) then Words(s[1..])
    else
      var n := WordEnd(s);
      [s[..n]] + Words(s[n..])
  }

  /** `s` with every white-space character removed. */
  function Squeeze(s: string): string
  {
    if s == [] then [] else (if IsSpace(s[0]) then [] else [s[0]]) + Squeeze(s[1..])
  }

  /** The words of a string, concatenated. */
  function Concat(ws: seq<string>): string
  {
    if ws == [] then [] else ws[0] + Concat(ws[1..])
  }

  lemma {:induction false} SqueezeAppend(a: string, b: string)
    ensures Squeeze(a + b) == Squeeze(a) + Squeeze(b)
  {
    if a != [] {
      assert (a + b)[1..] == a[1..] + b;
      SqueezeAppend(a[1..], b);
    } else {
      assert a + b == b;
    }
  }

  lemma {:induction false} SqueezeWord(w: string)
    requires forall i :: 0 <= i < |w| ==> !IsSpace(w[i])
    ensures Squeeze(w) == w
  {
    if w != [] {
      SqueezeWord(w[1..]);
    }
  }

  /** Splitting into words loses white space and nothing else. */
  lemma {:induction false} WordsKeepText(s: string)
    ensures Concat(Words(s)) == Squeeze(s)
    decreases |s|
  {
    if s != [] {
      if IsSpace(s[0]) {
        WordsKeepText(s[1..]);
      } else {
        var n := WordEnd(s);
        assert s == s[..n] + s[n..];
        SqueezeAppend(s[..n], s[n..]);
        SqueezeWord(s[..n]);
        WordsKeepText(s[n..]);
        assert Words(s)[1..] == Words(s[n..]);
      }
    }
  }

  /** A word followed by white space, or by nothing, ends where the word ends. */
  lemma {:induction false} WordEndAfterWord(w: string, rest: string)
    requires forall i :: 0 <= i < |w| ==> !IsSpace(w[i])
    requires rest == [] || IsSpace(rest[0])
    ensures WordEnd(w + rest) == |w|
  {
    if w == [] {
      assert w + rest == rest;
    } else {
      assert (w + rest)[1..] == w[1..] + rest;
      WordEndAfterWord(w[1..], rest);
    }
  }

  /** The words of a word followed by white space (or nothing) and more text. */
  lemma WordsAfterWord(w: string, rest: string)
    requires IsWord(w) && (rest == [] || IsSpace(rest[0]))
    ensures Words(w + rest) == [w] + Words(rest)
  {
    WordEndAfterWord(w, rest);
    assert (w + rest)[..|w|] == w && (w + rest)[|w|..] == rest;
  }

  /** Splitting words joined by single spaces gives back the words. */
  lemma WordsOfJoin(ws: seq<string>)
    requires |ws| >= 1 && forall k :: 0 <= k < |ws| ==> IsWord(ws[k])
    ensures Words(Join(ws, " ")) == ws
  {
    var gaps := seq(|ws| - 1, _ => " ");
    JoinInterleave(ws, gaps, " ");
    WordsOfGapped(ws, gaps, "");
    assert Interleave(ws, gaps) + "" == Interleave(ws, gaps);
  }

  /** Joining with `sep` puts `sep` in every gap. */
  lemma {:induction false} JoinInterleave(ws: seq<string>, gaps: seq<string>, sep: string)
    requires |ws| >= 1 && |gaps| == |ws| - 1 && forall k :: 0 <= k < |gaps| ==> gaps[k] == sep
    ensures Join(ws, sep) == Interleave(ws, gaps)
    decreases |ws|
  {
    if |ws| > 1 {
      JoinInterleave(ws[1..], gaps[1..], sep);
    }
  }

  /** Leading white space contributes no word. */
  lemma WordsAfterSpace(c: char, rest: string)
    requires IsSpace(c)
    ensures Words([c] + rest) == Words(rest)
  {
    assert ([c] + rest)[1..] == rest;
  }

  /** A string made only of white space (possibly empty). */
  predicate AllSpace(g: string)
  {
    forall i :: 0 <= i < |g| ==> IsSpace(g[i])
  }

  /** The words `ws` with the gap `gaps[k]` between `ws[k]` and `ws[k + 1]`. */
  function Interleave(ws: seq<string>, gaps: seq<string>): string
    requires |ws| >= 1 && |gaps| == |ws| - 1
    decreases |ws|
  {
    if |ws| == 1 then ws[0] else ws[0] + gaps[0] + Interleave(ws[1..], gaps[1..])
  }

  /** Any run of leading white space contributes no word. */
  lemma {:induction false} WordsAfterSpaces(g: string, rest: string)
    requires AllSpace(g)
    ensures Words(g + rest) == Words(rest)
    decreases |g|
  {
    if g != [] {
      var tail := g[1..];
      assert AllSpace(tail) by {
        forall i | 0 <= i < |tail| ensures IsSpace(tail[i]) { assert tail[i] == g[i + 1]; }
      }
      assert g + rest == [g[0]] + (tail + rest);
      WordsAfterSpace(g[0], tail + rest);
      WordsAfterSpaces(tail, rest);
    } else {
      assert g + rest == rest;
    }
  }

  /** A word, then for each gap a non-empty run of white space and the next word, then
      trailing white space: the words come back. */
  lemma {:induction false} WordsOfGapped(ws: seq<string>, gaps: seq<string>, trail: string)
    requires AllSpace(trail)
    requires |ws| >= 1 && |gaps| == |ws| - 1
    requires forall k :: 0 <= k < |ws| ==> IsWord(ws[k])
    requires forall k :: 0 <= k < |gaps| ==> gaps[k] != [] && AllSpace(gaps[k])
    ensures Words(Interleave(ws, gaps) + trail) == ws
    decreases |ws|
  {
    if |ws| == 1 {
      WordsAfterWord(ws[0], trail);
      assert Words(trail) == [];
    } else {
      var tail := Interleave(ws[1..], gaps[1..]) + trail;
      var gap := gaps[0];
      assert Interleave(ws, gaps) + trail == ws[0] + (gap + tail);
      assert (gap + tail)[0] == gap[0];
      WordsAfterWord(ws[0], gap + tail);
      WordsAfterSpaces(gap, tail);
      WordsOfGapped(ws[1..], gaps[1..], trail);
      assert [ws[0]] + ws[1..] == ws;
    }
  }

  /** The words of a line are exactly its maximal runs of non-space characters: words
      separated by any non-empty runs of white space, with any white space before and
      after, split back into those words. */
  lemma WordsOfSpaced(lead: string, ws: seq<string>, gaps: seq<string>, trail: string)
    requires AllSpace(lead) && AllSpace(trail)
    requires |ws| >= 1 && |gaps| == |ws| - 1
    requires forall k :: 0 <= k < |ws| ==> IsWord(ws[k])
    requires forall k :: 0 <= k < |gaps| ==> gaps[k] != [] && AllSpace(gaps[k])
    ensures Words(lead + Interleave(ws, gaps) + trail) == ws
  {
    var body := Interleave(ws, gaps) + trail;
    assert lead + Interleave(ws, gaps) + trail == lead + body;
    WordsAfterSpaces(lead, body);
    WordsOfGapped(ws, gaps, trail);
  }

  /** A string that neither starts nor ends with white space is its own trim. */
  lemma TrimKeeps(s: string)
    requires s == [] || (!IsSpace(s[0]) && !IsSpace(s[|s| - 1]))
    ensures Trim(s) == s
  {
  }

  /** `parts.join(sep)`. */
  function Join(parts: seq<string>, sep: string): string
  {
    if parts == [] then ""
    else if |parts| == 1 then parts[0]
    else parts[0] + sep + Join(parts[1..], sep)
  }

  /** A join ends with its last part. */
  lemma {:induction false} JoinEndsWithLast(parts: seq<string>, sep: string)
    requires |parts| >= 1
    ensures var j := Join(parts, sep); var last := parts[|parts| - 1];
      |j| >= |last| && j[|j| - |last|..] == last
    decreases |parts|
  {
    if |parts| > 1 {
      JoinEndsWithLast(parts[1..], sep);
      var j := Join(parts[1..], sep);
      assert parts[1..][|parts| - 2] == parts[|parts| - 1];
      assert Join(parts, sep) == (parts[0] + sep) + j;
    }
  }

  /** `s.split(sep)` for a one-character separator: the pieces between separators,
      empty pieces included. */
  function Split(s: string, sep: char): (parts: seq<string>)
    ensures |parts| >= 1
    ensures forall k :: 0 <= k < |parts| ==> sep !in parts[k]
  {
    if s == [] then [""]
    else
      var rest := Split(s[1..], sep);
      if s[0] == sep then [""] + rest
      else [[s[0]] + rest[0]] + rest[1..]
  }

  /** Joining the pieces of a split with the separator gives back the string. */
  lemma {:induction false} JoinSplit(s: string, sep: char)
    ensures Join(Split(s, sep), [sep]) == s
  {
    if s != [] {
      var rest := Split(s[1..], sep);
      JoinSplit(s[1..], sep);
      if s[0] == sep {
        assert Split(s, sep)[1..] == rest;
      } else {
        var parts := Split(s, sep);
        if |rest| == 1 {
          assert parts == [[s[0]] + rest[0]];
        } else {
          assert parts[1..] == rest[1..];
          assert Join(rest, [sep]) == rest[0] + [sep] + Join(rest[1..], [sep]);
        }
        assert s == [s[0]] + s[1..];
      }
    }
  }

  /** Splitting a join of separator-free pieces gives back the pieces. */
  lemma {:induction false} SplitJoin(parts: seq<string>, sep: char)
    requires |parts| >= 1
    requires forall k :: 0 <= k < |parts| ==> sep !in parts[k]
    ensures Split(Join(parts, [sep]), sep) == parts
  {
    if |parts| == 1 {
      SplitPiece(parts[0], [], sep);
      assert parts[0] + [] == parts[0];
    } else {
      var j := Join(parts[1..], [sep]);
      SplitJoin(parts[1..], sep);
      assert Join(parts, [sep]) == parts[0] + ([sep] + j);
      SplitPiece(parts[0], [sep] + j, sep);
      assert ([sep] + j)[1..] == j;
      assert Split([sep] + j, sep) == [""] + parts[1..];
      assert parts[0] + "" == parts[0];
      assert parts == [parts[0]] + parts[1..];
    }
  }

  /** Splitting a join that starts with the separator gives an empty piece, then the
      pieces. */
  lemma SplitLeadingJoin(parts: seq<string>, sep: char)
    requires |parts| >= 1
    requires forall k :: 0 <= k < |parts| ==> sep !in parts[k]
    ensures Split([sep] + Join(parts, [sep]), sep) == [""] + parts
  {
    var all := [""] + parts;
    assert all[1..] == parts;
    assert Join(all, [sep]) == "" + [sep] + Join(parts, [sep]);
    assert "" + [sep] + Join(parts, [sep]) == [sep] + Join(parts, [sep]);
    SplitJoin(all, sep);
  }

  /** A separator-free prefix glues onto the first piece of what follows it. */
  lemma {:induction false} SplitPiece(w: string, rest: string, sep: char)
    requires sep !in w
    ensures Split(w + rest, sep) == [w + Split(rest, sep)[0]] + Split(rest, sep)[1..]
  {
    if w == [] {
      assert w + rest == rest;
      var ps := Split(rest, sep);
      assert w + ps[0] == ps[0];
      assert [ps[0]] + ps[1..] == ps;
    } else {
      assert (w + rest)[1..] == w[1..] + rest;
      SplitPiece(w[1..], rest, sep);
      assert [w[0]] + (w[1..] + Split(rest, sep)[0]) == w + Split(rest, sep)[0];
    }
  }

  /** `String.prototype.toLowerCase` on one character, where the result is an ASCII
      letter: the ASCII capitals and the Kelvin sign. Other characters are kept. */
  function LowerChar(c: char): char
  {
    if 'A' <= c <= 'Z' then (c as int + 32) as char
    else if c == '\U{212A}' then 'k'
    else c
  }

  /** `String.prototype.toUpperCase` on one character, where the result is an ASCII
      letter: the ASCII small letters, the dotless `i` and the long `s`. Other
      characters are kept. */
  function UpperChar(c: char): char
  {
    if 'a' <= c <= 'z' then (c as int - 32) as char
    else if c == '\U{0131}' then 'I'
    else if c == '\U{017F}' then 'S'
    else c
  }

  function ToLower(s: string): (r: string)
    ensures |r| == |s| && forall i :: 0 <= i < |s| ==> r[i] == LowerChar(s[i])
  {
    seq(|s|, i requires 0 <= i < |s| => LowerChar(s[i]))
  }

  function ToUpper(s: string): (r: string)
    ensures |r| == |s| && forall i :: 0 <= i < |s| ==> r[i] == UpperChar(s[i])
  {
    seq(|s|, i requires 0 <= i < |s| => UpperChar(s[i]))
  }

  /** A string of ASCII small letters. */
  predicate LowerAlpha(v: string)
  {
    forall i :: 0 <= i < |v| ==> 'a' <= v[i] <= 'z'
  }

  /** `w` spells `v` with any mix of cases: each character is the one of `v`, its ASCII
      capital, or the Kelvin sign in place of `k`. */
  predicate LowerVariant(w: string, v: string)
  {
    |w| == |v| && forall i :: 0 <= i < |w| ==>
      w[i] == v[i] || ('a' <= v[i] <= 'z' && w[i] == (v[i] as int - 32) as char)
      || (v[i] == 'k' && w[i] == '\U{212A}')
  }

  /** Lower-casing a string gives a word of small letters exactly when the string is one
      of that word's case variants. */
  lemma LowerMatchesVariants(w: string, v: string)
    requires LowerAlpha(v)
    ensures ToLower(w) == v <==> LowerVariant(w, v)
  {
    if LowerVariant(w, v) {
      assert forall i :: 0 <= i < |w| ==> ToLower(w)[i] == v[i];
    }
    if ToLower(w) == v {
      forall i | 0 <= i < |w| ensures ToLower(w)[i] == v[i] {
      }
    }
  }

  /** A string of ASCII capitals and digits. */
  predicate UpperAlnum(id: string)
  {
    forall i :: 0 <= i < |id| ==> 'A' <= id[i] <= 'Z' || '0' <= id[i] <= '9'
  }

  /** `a` spells `id` with any mix of cases: each character is the one of `id`, its
      ASCII small letter, or a non-ASCII letter whose capital it is. */
  predicate CaseVariant(a: string, id: string)
  {
    |a| == |id| && forall i :: 0 <= i < |a| ==>
      a[i] == id[i] || ('A' <= id[i] <= 'Z' && a[i] == (id[i] as int + 32) as char)
      || (id[i] == 'I' && a[i] == '\U{0131}') || (id[i] == 'S' && a[i] == '\U{017F}')
  }

  /** Upper-casing a string gives an ID of capitals and digits exactly when the string
      is one of the ID's case variants. */
  lemma UpperMatchesVariants(a: string, id: string)
    requires UpperAlnum(id)
    ensures ToUpper(a) == id <==> CaseVariant(a, id)
  {
    if CaseVariant(a, id) {
      assert forall i :: 0 <= i < |a| ==> ToUpper(a)[i] == id[i];
    }
    if ToUpper(a) == id {
      forall i | 0 <= i < |a| ensures ToUpper(a)[i] == id[i] {
      }
    }
  }
}
