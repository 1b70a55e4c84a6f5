/**
 * The few Python `str` operations the scraper configuration relies on:
 * `isspace`, `strip`, `lower`, `split(sep)`, `split()`, `sep.join` and
 * `int(...)`, stated over Dafny strings (sequences of Unicode scalar values).
 */
module Text {
  import opened Wrappers

  // ---------------------------------------------------------------------
  // Whitespace
  // ---------------------------------------------------------------------

  /** `c.isspace()`: the characters Python's `strip()` and `split()` treat as whitespace. */
  predicate IsSpace(c: char): (r: bool)
    ensures c == ' ' || c == '\t' || c == '\n' || c == '\r' ==> r
    ensures r ==> !IsDigit(c) && c != ',' && c != '_' && c != '-' && c != '+' && LowerChar(c) == c
  {
    || c == ' ' || c == '\t' || c == '\n' || c == '\r'
    || c == '\U{B}' || c == '\U{C}'
    || ('\U{1C}' <= c <= '\U{1F}')
    || c == '\U{85}' || c == '\U{A0}' || c == '\U{1680}'
    || ('\U{2000}' <= c <= '\U{200A}')
    || c == '\U{2028}' || c == '\U{2029}' || c == '\U{202F}' || c == '\U{205F}' || c == '\U{3000}'
  }

  predicate AllSpace(s: string) {
    forall i :: 0 <= i < |s| ==> IsSpace(s[i])
  }

  predicate NoSpace(s: string) {
    forall i :: 0 <= i < |s| ==> !IsSpace(s[i])
  }

  /** Neither starts nor ends with whitespace. */
  predicate IsTrimmed(s: string) {
    s != [] ==> !IsSpace(s[0]) && !IsSpace(s[|s| - 1])
  }

  // ---------------------------------------------------------------------
  // strip
  // ---------------------------------------------------------------------

  /** `s.rstrip()` */
  function TrimEnd(s: string): (r: string)
    ensures |r| <= |s| && r == s[..|r|]
    ensures AllSpace(s[|r|..])
    ensures r != [] ==> !IsSpace(r[|r| - 1])
    decreases |s|
  {
    if s != [] && IsSpace(s[|s| - 1]) then
      var r := TrimEnd(s[..|s| - 1]);
      assert s[|r|..] == s[..|s| - 1][|r|..] + [s[|s| - 1]];
      r
    else
      s
  }

  /** `s.lstrip()` */
  function TrimStart(s: string): (r: string)
    ensures |r| <= |s| && r == s[|s| - |r|..]
    ensures AllSpace(s[..|s| - |r|])
    ensures r != [] ==> !IsSpace(r[0])
    decreases |s|
  {
    if s != [] && IsSpace(s[0]) then
      var r := TrimStart(s[1..]);
      SpaceBeforeTail(s, |s| - |r|);
      r
    else
      s
  }

  /** A whitespace character followed by whitespace from the tail: the front of `s` is whitespace. */
  lemma SpaceBeforeTail(s: string, k: nat)
    requires 0 < k <= |s| && IsSpace(s[0]) && AllSpace(s[1..][..k - 1])
    ensures AllSpace(s[..k]) && s[1..][k - 1..] == s[k..]
  {
    forall i | 0 <= i < k ensures IsSpace(s[..k][i]) {
      if i > 0 {
        assert s[..k][i] == s[1..][..k - 1][i - 1];
      }
    }
  }

  /**
   * `s.strip()`: `s` with its leading and trailing whitespace cut away; it
   * keeps only characters of `s` and is empty exactly when `s` is all
   * whitespace.
   */
  function Strip(s: string): (r: string)
    ensures IsTrimmed(r)
    ensures forall c :: c in r ==> c in s
    ensures r == [] <==> AllSpace(s)
  {
    var t := TrimEnd(s);
    var r := TrimStart(t);
    StripSlice(s, t, r);
    StripKeepsChars(s, t, r);
    StripEmpty(s, t, r);
    r
  }

  /** What `strip` keeps is a slice of `s` ending where `rstrip` stopped. */
  lemma StripSlice(s: string, t: string, r: string)
    requires t == TrimEnd(s) && r == TrimStart(t)
    ensures |t| <= |s| && |r| <= |t| && r == s[|t| - |r|..|t|]
    ensures IsTrimmed(r)
  {
    assert t == s[..|t|];
    assert r == t[|t| - |r|..];
    if r != [] {
      assert r[|r| - 1] == t[|t| - 1];
    }
  }

  lemma StripKeepsChars(s: string, t: string, r: string)
    requires |t| <= |s| && |r| <= |t| && r == s[|t| - |r|..|t|]
    ensures forall c :: c in r ==> c in s
  {
    forall c | c in r ensures c in s {
      var k :| 0 <= k < |r| && r[k] == c;
      assert s[|t| - |r| + k] == c;
    }
  }

  lemma StripEmpty(s: string, t: string, r: string)
    requires t == TrimEnd(s) && r == TrimStart(t)
    requires |t| <= |s| && |r| <= |t| && r == s[|t| - |r|..|t|]
    ensures r == [] <==> AllSpace(s)
  {
    if r == [] {
      assert AllSpace(t) by {
        assert t[..|t| - |r|] == t;
      }
      AllSpaceAround(s, |t|);
    } else {
      assert s[|t| - |r|] == r[0];
    }
  }

  /** A string whose two parts around `k` are all whitespace is all whitespace. */
  lemma AllSpaceAround(s: string, k: nat)
    requires k <= |s| && AllSpace(s[..k]) && AllSpace(s[k..])
    ensures AllSpace(s)
  {
    forall i | 0 <= i < |s| ensures IsSpace(s[i]) {
      if i < k {
        assert s[i] == s[..k][i];
      } else {
        assert s[i] == s[k..][i - k];
      }
    }
  }

  /** Python's `not s.strip()`: true exactly when every character is whitespace, or there are none. */
  predicate IsBlank(s: string): (r: bool)
    ensures r <==> AllSpace(s)
  {
    Strip(s) == []
  }

  lemma StripTrimmed(s: string)
    requires IsTrimmed(s)
    ensures Strip(s) == s
  {
  }

  lemma {:induction false} StripIdempotent(s: string)
    ensures Strip(Strip(s)) == Strip(s)
  {
    StripTrimmed(Strip(s));
  }

  lemma {:induction false} TrimEndSpaces(x: string, post: string)
    requires x != [] && !IsSpace(x[|x| - 1]) && AllSpace(post)
    ensures TrimEnd(x + post) == x
    decreases |post|
  {
    if post != [] {
      var s := x + post;
      assert s[..|s| - 1] == x + post[..|post| - 1];
      TrimEndSpaces(x, post[..|post| - 1]);
    } else {
      assert x + post == x;
    }
  }

  lemma {:induction false} TrimStartSpaces(pre: string, x: string)
    requires x != [] && !IsSpace(x[0]) && AllSpace(pre)
    ensures TrimStart(pre + x) == x
    decreases |pre|
  {
    if pre != [] {
      var s := pre + x;
      assert s[0] == pre[0] && IsSpace(s[0]);
      assert s[1..] == pre[1..] + x;
      TrimStartSpaces(pre[1..], x);
    } else {
      assert pre + x == x;
    }
  }

  /** `strip()` cuts exactly the whitespace around a non-blank core. */
  lemma StripPadded(pre: string, core: string, post: string)
    requires AllSpace(pre) && AllSpace(post)
    requires core != [] && IsTrimmed(core)
    ensures Strip(pre + core + post) == core
  {
    TrimEndSpaces(pre + core, post);
    TrimStartSpaces(pre, core);
  }

  /** `s` is its strip with whitespace before and after it. */
  lemma StripParts(s: string) returns (pre: string, post: string)
    ensures AllSpace(pre) && AllSpace(post)
    ensures s == pre + Strip(s) + post
  {
    var t := TrimEnd(s);
    var r := TrimStart(t);
    pre, post := TrimParts(s, t, r);
  }

  /** What `rstrip` and then `lstrip` cut from `s` is whitespace on either side of what they keep. */
  lemma TrimParts(s: string, t: string, r: string) returns (pre: string, post: string)
    requires |t| <= |s| && t == s[..|t|] && AllSpace(s[|t|..])
    requires |r| <= |t| && r == t[|t| - |r|..] && AllSpace(t[..|t| - |r|])
    ensures AllSpace(pre) && AllSpace(post)
    ensures s == pre + r + post
  {
    pre := t[..|t| - |r|];
    post := s[|t|..];
    assert t == pre + r;
    assert s == t + post;
  }

  // ---------------------------------------------------------------------
  // lower
  // ---------------------------------------------------------------------

  /** `c.lower()` for the Basic Latin and Latin-1 letters; every other character is kept. */
  function LowerChar(c: char): char {
    if 'A' <= c <= 'Z' || ('\U{C0}' <= c <= '\U{DE}' && c != '\U{D7}') then (c as int + 32) as char else c
  }

  predicate IsLowered(c: char) {
    LowerChar(c) == c
  }

  predicate AllLowered(s: string) {
    forall i :: 0 <= i < |s| ==> IsLowered(s[i])
  }

  /**
   * `s.lower()` for ASCII and Latin-1 capitals, one character for one: same
   * length, every character lower-case, whitespace exactly where it was, and
   * characters already lower-case are left as they are.
   */
  function Lower(s: string): (r: string)
    ensures |r| == |s| && AllLowered(r)
    ensures forall i :: 0 <= i < |s| ==> (IsSpace(r[i]) <==> IsSpace(s[i]))
    ensures AllLowered(s) ==> r == s
  {
    seq(|s|, i requires 0 <= i < |s| => LowerChar(s[i]))
  }

  /** Lower-casing works character by character. */
  lemma LowerAppend(a: string, b: string)
    ensures Lower(a + b) == Lower(a) + Lower(b)
  {
    assert forall i :: 0 <= i < |a + b| ==> Lower(a + b)[i] == (Lower(a) + Lower(b))[i];
  }

  /** Lower-casing neither adds nor removes whitespace. */
  lemma LowerAllSpace(s: string)
    ensures AllSpace(Lower(s)) <==> AllSpace(s)
  {
  }

  // ---------------------------------------------------------------------
  // sep.join and s.split(sep)
  // ---------------------------------------------------------------------

  /** `sep.join(parts)`: it starts with the first part. */
  function Join(parts: seq<string>, sep: string): (r: string)
    ensures parts != [] ==> parts[0] <= r
  {
    if |parts| == 0 then []
    else if |parts| == 1 then parts[0]
    else parts[0] + sep + Join(parts[1..], sep)
  }

  /**
   * `s.split(sep)` for a one-character separator: the pieces between the
   * separators, empty ones included. There is always at least one piece, no
   * piece holds the separator, and joining the pieces gives `s` back.
   */
  function Split(s: string, sep: char): (r: seq<string>)
    ensures |r| >= 1
    ensures forall i :: 0 <= i < |r| ==> sep !in r[i]
    decreases |s|
  {
    if s == [] then [[]]
    else
      var t := Split(s[1..], sep);
      if s[0] == sep then [[]] + t
      else [[s[0]] + t[0]] + t[1..]
  }

  /** Joining the pieces with the separator gives the string back. */
  lemma {:induction false} JoinSplit(s: string, sep: char)
    ensures Join(Split(s, sep), [sep]) == s
    decreases |s|
  {
    if s != [] {
      JoinSplit(s[1..], sep);
      var t := Split(s[1..], sep);
      var r := Split(s, sep);
      assert s == [s[0]] + s[1..];
      if s[0] == sep {
        assert r == [[]] + t;
        JoinCons([], t, [sep]);
      } else {
        assert r == [[s[0]] + t[0]] + t[1..];
        JoinExtendFirst(s[0], t, [sep]);
      }
    }
  }

  /** Putting a character in front of the first part puts it in front of the joined string. */
  lemma JoinExtendFirst(c: char, t: seq<string>, sep: string)
    requires |t| >= 1
    ensures Join([[c] + t[0]] + t[1..], sep) == [c] + Join(t, sep)
  {
    if |t| > 1 {
      assert t == [t[0]] + t[1..];
      JoinCons(t[0], t[1..], sep);
      JoinCons([c] + t[0], t[1..], sep);
    }
  }

  /** Joining a first part with one or more others puts the separator between them. */
  lemma JoinCons(first: string, rest: seq<string>, sep: string)
    requires |rest| >= 1
    ensures Join([first] + rest, sep) == first + sep + Join(rest, sep)
  {
    assert ([first] + rest)[1..] == rest;
  }

  /** Splitting distributes over a separator: the pieces of `a` come first, then those of `b`. */
  lemma {:induction false} SplitAppend(a: string, b: string, sep: char)
    ensures Split(a + [sep] + b, sep) == Split(a, sep) + Split(b, sep)
    decreases |a|
  {
    var s := a + [sep] + b;
    if a == [] {
      assert s == [sep] + b && s[1..] == b;
      SplitStep(s, sep);
    } else {
      var x := a[1..] + [sep] + b;
      assert s[0] == a[0] && s[1..] == x;
      SplitAppend(a[1..], b, sep);
      SplitStep(s, sep);
      SplitStep(a, sep);
      var ta, tb := Split(a[1..], sep), Split(b, sep);
      if a[0] == sep {
        ListAssoc([[]], ta, tb);
      } else {
        ListHeadTail(ta, tb);
        ListAssoc([[a[0]] + ta[0]], ta[1..], tb);
      }
    }
  }

  /** One step of `Split`: the first character either ends the first piece or joins it. */
  lemma SplitStep(s: string, sep: char)
    requires s != []
    ensures s[0] == sep ==> Split(s, sep) == [[]] + Split(s[1..], sep)
    ensures s[0] != sep ==> Split(s, sep) == [[s[0]] + Split(s[1..], sep)[0]] + Split(s[1..], sep)[1..]
  {
  }

  /** The head and tail of a concatenation whose first list is not empty. */
  lemma ListHeadTail<T>(x: seq<T>, y: seq<T>)
    requires x != []
    ensures (x + y)[0] == x[0] && (x + y)[1..] == x[1..] + y
  {
  }

  /** A string without the separator is a single piece. */
  lemma {:induction false} SplitNoSeparator(a: string, sep: char)
    requires sep !in a
    ensures Split(a, sep) == [a]
    decreases |a|
  {
    if a != [] {
      assert a[0] != sep && sep !in a[1..];
      SplitNoSeparator(a[1..], sep);
      assert a == [a[0]] + a[1..];
    }
  }

  /** `s.split(sep)` undoes `sep.join(parts)` when no part holds the separator. */
  lemma {:induction false} SplitJoin(parts: seq<string>, sep: char)
    requires |parts| >= 1
    requires forall i :: 0 <= i < |parts| ==> sep !in parts[i]
    ensures Split(Join(parts, [sep]), sep) == parts
    decreases |parts|
  {
    if |parts| == 1 {
      SplitNoSeparator(parts[0], sep);
    } else {
      SplitAppend(parts[0], Join(parts[1..], [sep]), sep);
      SplitNoSeparator(parts[0], sep);
      SplitJoin(parts[1..], sep);
      assert parts == [parts[0]] + parts[1..];
    }
  }

  // ---------------------------------------------------------------------
  // s.split() and " ".join(...)
  // ---------------------------------------------------------------------

  /** Length of the run of non-whitespace that starts `s`. */
  function WordLength(s: string): (k: nat)
    ensures k <= |s| && NoSpace(s[..k])
    ensures k < |s| ==> IsSpace(s[k])
    decreases |s|
  {
    if s == [] || IsSpace(s[0]) then 0
    else
      var k := 1 + WordLength(s[1..]);
      assert s[..k] == [s[0]] + s[1..][..k - 1];
      k
  }

  /**
   * `s.split()` with no separator: the maximal runs of non-whitespace, in
   * order. Every word is non-empty and holds no whitespace; there are none
   * exactly when `s` is all whitespace.
   */
  function Words(s: string): (r: seq<string>)
    ensures forall i :: 0 <= i < |r| ==> r[i] != [] && NoSpace(r[i])
    ensures r == [] <==> AllSpace(s)
    decreases |s|
  {
    if s == [] then []
    else if IsSpace(s[0]) then
      var r := Words(s[1..]);
      assert AllSpace(s) <==> AllSpace(s[1..]);
      r
    else
      [s[..WordLength(s)]] + Words(s[WordLength(s)..])
  }

  /** The words of `s` are made of characters of `s`. */
  lemma {:induction false} WordsChars(s: string)
    ensures forall i, k :: 0 <= i < |Words(s)| && 0 <= k < |Words(s)[i]| ==> Words(s)[i][k] in s
    decreases |s|
  {
    if s != [] {
      if IsSpace(s[0]) {
        WordsChars(s[1..]);
        assert forall c :: c in s[1..] ==> c in s;
      } else {
        var k := WordLength(s);
        WordsChars(s[k..]);
        var r := Words(s);
        forall i, j | 0 <= i < |r| && 0 <= j < |r[i]| ensures r[i][j] in s {
          if i == 0 {
            assert r[i][j] == s[j];
          } else {
            assert r[i] == Words(s[k..])[i - 1];
            assert r[i][j] in s[k..];
          }
        }
      }
    }
  }

  /**
   * A string in which whitespace only occurs as single `' '` characters
   * between two non-whitespace characters: the shape of `" ".join(s.split())`.
   */
  predicate IsCollapsed(s: string) {
    forall i :: 0 <= i < |s| && IsSpace(s[i]) ==> s[i] == ' ' && 0 < i < |s| - 1 && s[i + 1] != ' '
  }

  /** `" ".join(s.split())`: runs of whitespace become one space, the ends are cut. */
  function Collapse(s: string): (r: string)
    ensures IsCollapsed(r)
    ensures r == [] <==> AllSpace(s)
  {
    var ws := Words(s);
    JoinWords(ws);
    Join(ws, " ")
  }

  /** Every character of the collapse but the spaces comes from `s`. */
  lemma CollapseChars(s: string)
    ensures forall i :: 0 <= i < |Collapse(s)| && !IsSpace(Collapse(s)[i]) ==> Collapse(s)[i] in s
  {
    var ws := Words(s);
    WordsChars(s);
    JoinWordsChars(ws);
  }

  /** Collapsing a lower-case string keeps it lower-case. */
  lemma CollapseLowered(s: string)
    requires AllLowered(s)
    ensures AllLowered(Collapse(s))
  {
    var r := Collapse(s);
    CollapseChars(s);
    forall i | 0 <= i < |r| ensures IsLowered(r[i]) {
      if !IsSpace(r[i]) {
        var k :| 0 <= k < |s| && s[k] == r[i];
      }
    }
  }

  /** Joining non-empty, whitespace-free words with single spaces gives a collapsed string. */
  lemma {:induction false} JoinWords(ws: seq<string>)
    requires forall i :: 0 <= i < |ws| ==> ws[i] != [] && NoSpace(ws[i])
    ensures IsCollapsed(Join(ws, " "))
    ensures Join(ws, " ") == [] <==> ws == []
    decreases |ws|
  {
    if |ws| > 1 {
      JoinWords(ws[1..]);
      var w, rest := ws[0], Join(ws[1..], " ");
      var s := Join(ws, " ");
      assert s == w + " " + rest;
      forall k | 0 <= k < |s| && IsSpace(s[k])
        ensures s[k] == ' ' && 0 < k < |s| - 1 && s[k + 1] != ' '
      {
        if k == |w| {
          assert s[k + 1] == rest[0];
        } else if k > |w| {
          assert s[k] == rest[k - |w| - 1];
        }
      }
    } else if |ws| == 1 {
      assert forall k :: 0 <= k < |ws[0]| ==> Join(ws, " ")[k] == ws[0][k];
    }
  }

  /** Every character of a join but the separators comes from one of the words. */
  lemma {:induction false} JoinWordsChars(ws: seq<string>)
    requires forall i :: 0 <= i < |ws| ==> NoSpace(ws[i])
    ensures forall k :: 0 <= k < |Join(ws, " ")| && !IsSpace(Join(ws, " ")[k]) ==>
      exists i, j :: 0 <= i < |ws| && 0 <= j < |ws[i]| && Join(ws, " ")[k] == ws[i][j]
    decreases |ws|
  {
    if |ws| > 1 {
      JoinWordsChars(ws[1..]);
      var w, rest := ws[0], Join(ws[1..], " ");
      var s := Join(ws, " ");
      assert s == w + " " + rest;
      forall k | 0 <= k < |s| && !IsSpace(s[k])
        ensures exists i, j :: 0 <= i < |ws| && 0 <= j < |ws[i]| && s[k] == ws[i][j]
      {
        if k < |w| {
          assert s[k] == ws[0][k];
        } else {
          assert s[k] == rest[k - |w| - 1];
          var i, j :| 0 <= i < |ws[1..]| && 0 <= j < |ws[1..][i]| && rest[k - |w| - 1] == ws[1..][i][j];
          assert s[k] == ws[i + 1][j];
        }
      }
    } else if |ws| == 1 {
      assert forall k :: 0 <= k < |ws[0]| ==> Join(ws, " ")[k] == ws[0][k];
    }
  }

  /** In a collapsed string a space sits between two words, and what follows it is collapsed too. */
  lemma CollapsedAfterSpace(s: string, k: nat)
    requires IsCollapsed(s) && k < |s| && IsSpace(s[k])
    ensures 0 < k && k + 1 < |s| && s[k] == ' ' && !IsSpace(s[k + 1])
    ensures IsCollapsed(s[k + 1..])
  {
    var tail := s[k + 1..];
    assert s[k + 1] != ' ';
    forall i | 0 <= i < |tail| && IsSpace(tail[i])
      ensures tail[i] == ' ' && 0 < i < |tail| - 1 && tail[i + 1] != ' '
    {
      assert tail[i] == s[k + 1 + i];
      assert tail[i + 1] == s[k + 2 + i];
    }
  }

  /** The first word of `s`, when a single space and more follow it. */
  lemma WordsAfterWord(s: string, k: nat)
    requires k == WordLength(s) && 0 < k && k + 1 < |s| && !IsSpace(s[k + 1])
    ensures Words(s) == [s[..k]] + Words(s[k + 1..])
    ensures Words(s[k + 1..]) != []
  {
    assert s[k..][1..] == s[k + 1..];
    assert !AllSpace(s[k + 1..]) by {
      assert s[k + 1..][0] == s[k + 1];
    }
  }

  /** A string that is one whole word is its only word. */
  lemma WordsOfWord(s: string)
    requires s != [] && WordLength(s) == |s|
    requires !IsSpace(s[0])
    ensures Words(s) == [s]
  {
    assert s[..|s|] == s && s[|s|..] == [];
  }

  /** A string is its part before position `k`, the space at `k`, and the rest. */
  lemma AroundSpace(s: string, k: nat)
    requires k < |s| && s[k] == ' '
    ensures s == s[..k] + " " + s[k + 1..]
  {
  }

  /** Joining a first word with the rest puts one space between them. */
  lemma JoinFirst(ws: seq<string>)
    requires |ws| > 1
    ensures Join(ws, " ") == ws[0] + " " + Join(ws[1..], " ")
  {
  }

  /** A collapsed string is its words joined by single spaces. */
  lemma {:induction false} JoinWordsCollapsed(s: string)
    requires IsCollapsed(s)
    ensures Join(Words(s), " ") == s
    decreases |s|
  {
    if s != [] {
      var k := WordLength(s);
      if k == |s| {
        WordsOfWord(s);
      } else {
        CollapsedAfterSpace(s, k);
        var tail := s[k + 1..];
        JoinWordsCollapsed(tail);
        WordsAfterWord(s, k);
        JoinFirst(Words(s));
        AroundSpace(s, k);
      }
    }
  }

  /** A collapsed string is its own collapse. */
  lemma CollapseCollapsed(s: string)
    requires IsCollapsed(s)
    ensures Collapse(s) == s
  {
    JoinWordsCollapsed(s);
  }

  /** The first word does not change when more text follows a space. */
  lemma {:induction false} WordLengthPrefix(a: string, x: string)
    requires WordLength(a) < |a| || (x != [] && IsSpace(x[0]))
    ensures WordLength(a + x) == WordLength(a)
    decreases |a|
  {
    if a == [] {
      assert a + x == x;
    } else if IsSpace(a[0]) {
      assert (a + x)[0] == a[0];
    } else {
      assert (a + x)[0] == a[0] && (a + x)[1..] == a[1..] + x;
      WordLengthPrefix(a[1..], x);
    }
  }

  /** Leading whitespace adds no word. */
  lemma {:induction false} WordsLeadingSpace(ws: string, b: string)
    requires AllSpace(ws)
    ensures Words(ws + b) == Words(b)
    decreases |ws|
  {
    if ws == [] {
      assert ws + b == b;
    } else {
      assert (ws + b)[0] == ws[0] && (ws + b)[1..] == ws[1..] + b;
      WordsLeadingSpace(ws[1..], b);
    }
  }

  /**
   * A run of whitespace separates words: the words of `a + ws + b` are the
   * words of `a` followed by the words of `b`.
   */
  lemma {:induction false} WordsAroundSpace(a: string, ws: string, b: string)
    requires ws != [] && AllSpace(ws)
    ensures Words(a + ws + b) == Words(a) + Words(b)
    decreases |a|
  {
    if a == [] {
      AppendAssoc(a, ws, b);
      WordsLeadingSpace(ws, b);
    } else if IsSpace(a[0]) {
      WordsAroundSpace(a[1..], ws, b);
      WordsSpaceStep(a, ws, b);
    } else {
      WordsAroundSpace(a[WordLength(a)..], ws, b);
      WordsWordStep(a, ws, b);
    }
  }

  /** Whitespace at the front of `a` adds no word to `a + ws + b`, nor to `a`. */
  lemma WordsSpaceStep(a: string, ws: string, b: string)
    requires a != [] && IsSpace(a[0])
    requires Words(a[1..] + ws + b) == Words(a[1..]) + Words(b)
    ensures Words(a + ws + b) == Words(a) + Words(b)
  {
    calc {
      Words(a + ws + b);
    == { AppendAssoc(a, ws, b); AppendSlices(a, ws + b, 1); WordsSkipSpace(a + (ws + b)); AppendAssoc(a[1..], ws, b); }
      Words(a[1..] + ws + b);
    == { WordsSkipSpace(a); }
      Words(a) + Words(b);
    }
  }

  /** The first word of `a` is the first word of `a + ws + b`. */
  lemma WordsWordStep(a: string, ws: string, b: string)
    requires a != [] && !IsSpace(a[0]) && ws != [] && IsSpace(ws[0])
    requires Words(a[WordLength(a)..] + ws + b) == Words(a[WordLength(a)..]) + Words(b)
    ensures Words(a + ws + b) == Words(a) + Words(b)
  {
    var k := WordLength(a);
    var p, q := Words(a[k..]), Words(b);
    calc {
      Words(a + ws + b);
    == { AppendAssoc(a, ws, b); WordsFirstWord(a, ws + b); AppendAssoc(a[k..], ws, b); }
      [a[..k]] + Words(a[k..] + ws + b);
      [a[..k]] + (p + q);
    == { ListAssoc([a[..k]], p, q); }
      [a[..k]] + p + q;
    == { WordsUnfold(a); }
      Words(a) + q;
    }
  }

  /** Grouping of concatenations of lists does not matter. */
  lemma ListAssoc<T>(x: seq<T>, y: seq<T>, z: seq<T>)
    ensures x + (y + z) == x + y + z
  {
  }

  /** Grouping of concatenations does not matter; an empty front adds nothing. */
  lemma AppendAssoc(a: string, b: string, c: string)
    ensures a + b + c == a + (b + c)
    ensures a == [] ==> a + b + c == b + c
  {
  }

  /** A string that starts with whitespace has the words of its tail. */
  lemma WordsSkipSpace(s: string)
    requires s != [] && IsSpace(s[0])
    ensures Words(s) == Words(s[1..])
  {
  }

  /** A word at the front of `a` stays a whole word when whitespace follows `a`. */
  lemma WordsFirstWord(a: string, rest: string)
    requires a != [] && !IsSpace(a[0]) && rest != [] && IsSpace(rest[0])
    ensures WordLength(a) <= |a|
    ensures Words(a + rest) == [a[..WordLength(a)]] + Words(a[WordLength(a)..] + rest)
  {
    var k := WordLength(a);
    WordLengthPrefix(a, rest);
    AppendSlices(a, rest, k);
    WordsUnfold(a + rest);
  }

  /** The words of a string that starts with a word: that word, then the words after it. */
  lemma WordsUnfold(s: string)
    requires s != [] && !IsSpace(s[0])
    ensures Words(s) == [s[..WordLength(s)]] + Words(s[WordLength(s)..])
  {
  }

  /** Cutting `a + b` inside `a` cuts `a`. */
  lemma AppendSlices(a: string, b: string, k: nat)
    requires k <= |a|
    ensures (a + b)[0..k] == a[..k] && (a + b)[k..] == a[k..] + b
    ensures a != [] ==> (a + b)[0] == a[0]
  {
  }

  /** A non-empty string without whitespace is a single word. */
  lemma WordsSingle(w: string)
    requires w != [] && NoSpace(w)
    ensures Words(w) == [w]
  {
    WordsOfWord(w);
  }

  /** Whitespace around a string does not change its words. */
  lemma WordsPadded(pre: string, x: string, post: string)
    requires AllSpace(pre) && AllSpace(post)
    ensures Words(pre + x + post) == Words(x)
  {
    assert pre + x + post == pre + (x + post);
    WordsLeadingSpace(pre, x + post);
    if post == [] {
      assert x + post == x;
    } else {
      assert x + post == x + post + [];
      WordsAroundSpace(x, post, []);
    }
  }

  /** Joining two non-empty lists puts one separator between their joins. */
  lemma {:induction false} JoinAppend(a: seq<string>, b: seq<string>, sep: string)
    requires a != [] && b != []
    ensures Join(a + b, sep) == Join(a, sep) + sep + Join(b, sep)
    decreases |a|
  {
    if |a| == 1 {
      assert a + b == [a[0]] + b;
      JoinCons(a[0], b, sep);
    } else {
      assert a + b == [a[0]] + (a[1..] + b);
      assert a == [a[0]] + a[1..];
      JoinAppend(a[1..], b, sep);
      JoinCons(a[0], a[1..] + b, sep);
      JoinCons(a[0], a[1..], sep);
    }
  }

  /** Whitespace around a string does not change its collapse. */
  lemma CollapsePadded(pre: string, x: string, post: string)
    requires AllSpace(pre) && AllSpace(post)
    ensures Collapse(pre + x + post) == Collapse(x)
  {
    WordsPadded(pre, x, post);
  }

  /**
   * A run of whitespace between two non-blank strings becomes one space,
   * and the text on either side is collapsed on its own.
   */
  lemma CollapseAroundSpace(a: string, ws: string, b: string)
    requires !IsBlank(a) && !IsBlank(b) && ws != [] && AllSpace(ws)
    ensures Collapse(a + ws + b) == Collapse(a) + " " + Collapse(b)
  {
    WordsAroundSpace(a, ws, b);
    JoinAppend(Words(a), Words(b), " ");
  }

  /** Lower-casing three parts one by one, with whitespace kept whitespace. */
  lemma LowerParts(a: string, b: string, c: string)
    ensures Lower(a + b + c) == Lower(a) + Lower(b) + Lower(c)
    ensures AllSpace(Lower(a)) <==> AllSpace(a)
    ensures AllSpace(Lower(c)) <==> AllSpace(c)
  {
    assert a + b + c == a + (b + c);
    LowerAppend(a, b + c);
    LowerAppend(b, c);
    LowerAllSpace(a);
    LowerAllSpace(c);
  }

  /** `" ".join(s.strip().lower().split())` is `" ".join(s.lower().split())`. */
  lemma CollapseLowerStrip(s: string)
    ensures Collapse(Lower(Strip(s))) == Collapse(Lower(s))
  {
    var pre, post := StripParts(s);
    LowerParts(pre, Strip(s), post);
    CollapsePadded(Lower(pre), Lower(Strip(s)), Lower(post));
  }

  /** Lower-casing keeps a run of whitespace between two non-blank strings, so it still becomes one space. */
  lemma CollapseLowerAroundSpace(a: string, ws: string, b: string)
    requires !IsBlank(a) && !IsBlank(b) && ws != [] && AllSpace(ws)
    ensures Collapse(Lower(a + ws + b)) == Collapse(Lower(a)) + " " + Collapse(Lower(b))
  {
    LowerParts(a, ws, b);
    LowerAllSpace(ws);
    CollapseAroundSpace(Lower(a), Lower(ws), Lower(b));
  }

  // ---------------------------------------------------------------------
  // int(...) and str(...)
  // ---------------------------------------------------------------------

  predicate IsDigit(c: char) {
    '0' <= c <= '9'
  }

  predicate AllDigits(s: string) {
    forall i :: 0 <= i < |s| ==> IsDigit(s[i])
  }

  function DigitValue(c: char): nat
    requires IsDigit(c)
  {
    c as int - '0' as int
  }

  /** The digit character for `d`, read back as `d`. */
  function DigitChar(d: nat): (c: char)
    requires d < 10
    ensures IsDigit(c) && DigitValue(c) == d
  {
    ('0' as int + d) as char
  }

  /** The number a string of decimal digits spells, most significant digit first. */
  function DecimalValue(ds: string): nat
    requires AllDigits(ds)
  {
    if ds == [] then 0 else 10 * DecimalValue(ds[..|ds| - 1]) + DigitValue(ds[|ds| - 1])
  }

  /** `str(n)` for `n >= 0`: digits only, no leading zero, and it spells `n`. */
  function NatToString(n: nat): (r: string)
    ensures r != [] && AllDigits(r)
    ensures r[0] == '0' ==> r == "0"
    ensures DecimalValue(r) == n
  {
    if n < 10 then [DigitChar(n)]
    else
      var front := NatToString(n / 10);
      var r := front + [DigitChar(n % 10)];
      assert r[..|r| - 1] == front;
      r
  }

  /** `str(n)` */
  function IntToString(n: int): string {
    if n < 0 then "-" + NatToString(-n) else NatToString(n)
  }

  /**
   * The digit part `int()` accepts: decimal digits, with an underscore
   * allowed only between two digits.
   */
  predicate IsDigitGroup(s: string) {
    && s != [] && IsDigit(s[0]) && IsDigit(s[|s| - 1])
    && (forall i :: 0 <= i < |s| ==> IsDigit(s[i]) || s[i] == '_')
    && (forall i, j :: 0 <= i < |s| && 0 <= j < |s| && j == i + 1 && s[i] == '_' ==> IsDigit(s[j]))
  }

  /** The digits of a digit group, underscores dropped, in order. */
  function GroupDigits(s: string): (r: string)
    requires forall i :: 0 <= i < |s| ==> IsDigit(s[i]) || s[i] == '_'
    ensures AllDigits(r) && |r| <= |s|
    ensures AllDigits(s) ==> r == s
  {
    if s == [] then []
    else if s[0] == '_' then GroupDigits(s[1..])
    else [s[0]] + GroupDigits(s[1..])
  }

  /**
   * The most digits CPython's `int()` reads from, and `str()` writes, a
   * decimal number (`sys.int_info.default_max_str_digits`, since 3.11 and
   * the 3.7.14, 3.8.14, 3.9.14 and 3.10.7 security releases; earlier
   * releases have no limit).
   */
  const MaxStrDigits: nat := 4300

  /** The number an unsigned digit group spells, if `int()` accepts it. */
  function ParseUnsigned(digits: string): Option<nat> {
    if IsDigitGroup(digits) && |GroupDigits(digits)| <= MaxStrDigits then
      Some(DecimalValue(GroupDigits(digits)))
    else
      None
  }

  /** `int()` on a string with no surrounding whitespace left. */
  function ParseTrimmed(t: string): Option<int> {
    var signed := t != [] && (t[0] == '-' || t[0] == '+');
    match ParseUnsigned(if signed then t[1..] else t)
    case Some(magnitude) => Some(if signed && t[0] == '-' then 0 - magnitude else magnitude)
    case None => None
  }

  /**
   * The four ASCII information separators, U+001C to U+001F: `strip()`
   * removes them as whitespace, but `int()` does not skip them.
   */
  predicate IsInformationSeparator(c: char) {
    '\U{1C}' <= c <= '\U{1F}'
  }

  predicate NoInformationSeparator(s: string) {
    forall i :: 0 <= i < |s| ==> !IsInformationSeparator(s[i])
  }

  /**
   * `int(s)` in base 10: surrounding whitespace is ignored, one optional
   * sign, then a digit group of at most `MaxStrDigits` digits. Anything
   * else is the `ValueError` case, `None`. `int()` skips the whitespace of
   * `strip()` except the information separators, and a separator can never
   * be part of a number, so any separator makes the parse fail.
   */
  function ParseInt(s: string): (r: Option<int>)
    ensures r.Some? ==> !IsBlank(s) && NoInformationSeparator(s)
  {
    if NoInformationSeparator(s) then ParseTrimmed(Strip(s)) else None
  }

  /** A plain string of digits is accepted exactly when it is not too long. */
  lemma ParseUnsignedDigits(ds: string)
    requires ds != [] && AllDigits(ds)
    ensures ParseUnsigned(ds) == if |ds| <= MaxStrDigits then Some(DecimalValue(ds)) else None
  {
    assert IsDigitGroup(ds);
    assert GroupDigits(ds) == ds;
  }

  /** A plain string of digits reads as the number it spells, unless it is too long. */
  lemma ParseDigits(ds: string)
    requires ds != [] && AllDigits(ds)
    ensures ParseTrimmed(ds) == if |ds| <= MaxStrDigits then Some(DecimalValue(ds)) else None
  {
    ParseUnsignedDigits(ds);
    assert ds[0] != '-' && ds[0] != '+';
    match ParseUnsigned(ds)
    case Some(m) =>
      assert ParseTrimmed(ds) == Some(m);
    case None =>
  }

  /** A minus sign before a plain string of digits negates it. */
  lemma ParseNegativeDigits(t: string)
    requires |t| > 1 && t[0] == '-' && AllDigits(t[1..])
    ensures ParseTrimmed(t) == if |t| - 1 <= MaxStrDigits then Some(0 - DecimalValue(t[1..])) else None
  {
    ParseUnsignedDigits(t[1..]);
    ParseMinus(t);
  }

  /** A leading minus sign negates what the digits after it spell. */
  lemma ParseMinus(t: string)
    requires t != [] && t[0] == '-'
    ensures ParseUnsigned(t[1..]).Some? ==> ParseTrimmed(t) == Some(0 - ParseUnsigned(t[1..]).value)
    ensures ParseUnsigned(t[1..]).None? ==> ParseTrimmed(t) == None
  {
  }

  function Abs(n: int): nat {
    if n < 0 then -n else n
  }

  /**
   * `int(str(n)) == n` whenever `str(n)` has at most `MaxStrDigits` digits;
   * beyond that `int()` rejects the digits.
   */
  lemma ParseIntToString(n: int)
    ensures |NatToString(Abs(n))| <= MaxStrDigits ==> ParseInt(IntToString(n)) == Some(n)
    ensures |NatToString(Abs(n))| > MaxStrDigits ==> ParseInt(IntToString(n)) == None
  {
    var ds := NatToString(Abs(n));
    var s := IntToString(n);
    IntToStringPlain(n);
    if n < 0 {
      assert s[1..] == ds;
      ParseNegativeDigits(s);
    } else {
      ParseDigits(ds);
    }
  }

  /** `str(n)` has no whitespace for `int()` to skip and no information separator. */
  lemma IntToStringPlain(n: int)
    ensures ParseInt(IntToString(n)) == ParseTrimmed(IntToString(n))
  {
    var ds := NatToString(Abs(n));
    var s := IntToString(n);
    assert IsTrimmed(s) by {
      assert s[|s| - 1] == ds[|ds| - 1];
    }
    StripTrimmed(s);
    forall i | 0 <= i < |s| ensures !IsInformationSeparator(s[i]) {
      if n >= 0 {
        assert s[i] == ds[i];
      } else if i > 0 {
        assert s[i] == ds[i - 1];
      }
    }
  }

  /**
   * `int()` ignores whitespace around the number, unless that whitespace
   * holds an information separator, which `int()` rejects.
   */
  lemma ParseIntStrip(s: string)
    ensures NoInformationSeparator(s) ==> ParseInt(Strip(s)) == ParseInt(s)
    ensures !NoInformationSeparator(s) ==> ParseInt(s) == None
  {
    if NoInformationSeparator(s) {
      var t := Strip(s);
      forall i | 0 <= i < |t| ensures !IsInformationSeparator(t[i]) {
        assert t[i] in t;
        var j :| 0 <= j < |s| && s[j] == t[i];
      }
      StripIdempotent(s);
    }
  }
}
