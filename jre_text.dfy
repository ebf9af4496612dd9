/**
 * The java.lang.String operations the server's parsing relies on, with Java's
 * semantics: `startsWith`, `indexOf`, `contains`, `split` (limit 0, so trailing
 * empty pieces are dropped while leading and middle ones are kept), `trim` and
 * `equalsIgnoreCase`.
 */
module JreText {

  datatype Option<+T> = None | Some(value: T)

  /** `d` occurs in `s` starting at index `j`. */
  predicate OccursAt(s: string, d: string, j: int)
  {
    0 <= j && j + |d| <= |s| && s[j..j + |d|] == d
  }

  /** `s` contains no occurrence of the character `c`. */
  predicate NoChar(s: string, c: char)
  {
    forall j :: 0 <= j < |s| ==> s[j] != c
  }

  /** `s.startsWith(p)` */
  predicate StartsWith(s: string, p: string)
  {
    |p| <= |s| && s[..|p|] == p
  }

  /** `k` copies of the character `c`. */
  function Repeat(c: char, k: nat): (r: string)
    ensures |r| == k && forall j :: 0 <= j < k ==> r[j] == c
  {
    seq(k, _ => c)
  }

  lemma OccursShift(s: string, d: string, j: int)
    requires |s| > 0 && j >= 0
    ensures OccursAt(s, d, j + 1) <==> OccursAt(s[1..], d, j)
  {
    if 0 <= j && j + 1 + |d| <= |s| {
      assert s[1..][j..j + |d|] == s[j + 1..j + 1 + |d|];
    }
  }

  /** `s.indexOf(d)`: the first occurrence of `d` in `s`, if there is one. */
  function IndexOf(s: string, d: string): (r: Option<nat>)
    requires d != []
    ensures r.Some? ==> OccursAt(s, d, r.value)
    ensures r.Some? ==> forall j :: 0 <= j < r.value ==> !OccursAt(s, d, j)
    ensures r.None? ==> forall j :: !OccursAt(s, d, j)
    decreases |s|
  {
    if |s| < |d| then None
    else if s[..|d|] == d then Some(0)
    else
      var r' := IndexOf(s[1..], d);
      assert forall j :: j >= 1 ==> (OccursAt(s, d, j) <==> OccursAt(s[1..], d, j - 1)) by {
        forall j | j >= 1 ensures OccursAt(s, d, j) <==> OccursAt(s[1..], d, j - 1) {
          OccursShift(s, d, j - 1);
        }
      }
      assert forall j :: OccursAt(s, d, j) ==> j >= 1;
      match r'
      case None => None
      case Some(i) => Some(i + 1)
  }

  /** `s.contains(d)` */
  predicate Contains(s: string, d: string)
    requires d != []
  {
    IndexOf(s, d).Some?
  }

  /**
   * The pieces of `s` between successive non-overlapping occurrences of `d`,
   * scanning left to right; every piece is kept, empty ones included.
   */
  function Pieces(s: string, d: string): (r: seq<string>)
    requires d != []
    ensures |r| >= 1
    ensures forall k :: 0 <= k < |r| ==> IndexOf(r[k], d).None?
    decreases |s|
  {
    match IndexOf(s, d)
    case None => [s]
    case Some(i) =>
      assert IndexOf(s[..i], d).None? by {
        forall j | OccursAt(s[..i], d, j) ensures OccursAt(s, d, j) {
          assert s[..i][j..j + |d|] == s[j..j + |d|];
        }
      }
      [s[..i]] + Pieces(s[i + |d|..], d)
  }

  /** The inverse of `Pieces`: the pieces glued back together with `d` between them. */
  function Join(ts: seq<string>, d: string): string
  {
    if |ts| == 0 then "" else if |ts| == 1 then ts[0] else ts[0] + d + Join(ts[1..], d)
  }

  /** Removes every empty string at the end of `ts`. */
  function DropTrailingEmpty(ts: seq<string>): (r: seq<string>)
    ensures |r| <= |ts| && r == ts[..|r|]
    ensures r != [] ==> r[|r| - 1] != ""
    ensures forall i :: |r| <= i < |ts| ==> ts[i] == ""
  {
    if ts != [] && ts[|ts| - 1] == "" then DropTrailingEmpty(ts[..|ts| - 1]) else ts
  }

  /**
   * `s.split(d)` for a delimiter without regular-expression meta-characters:
   * when `d` does not occur the result is `[s]` (so `"".split(d)` is `[""]`);
   * otherwise the pieces, with the empty pieces at the end removed.
   */
  function Split(s: string, d: string): (r: seq<string>)
    requires d != []
    ensures forall k :: 0 <= k < |r| ==> IndexOf(r[k], d).None?
    ensures r != [s] ==> r == [] || r[|r| - 1] != ""
  {
    if IndexOf(s, d).None? then [s] else DropTrailingEmpty(Pieces(s, d))
  }

  /** `s.trim()`, first half: drops leading chars at or below U+0020. */
  function TrimStart(s: string): (r: string)
    ensures |r| <= |s| && r == s[|s| - |r|..]
    ensures r != [] ==> r[0] > ' '
    ensures forall i :: 0 <= i < |s| - |r| ==> s[i] <= ' '
  {
    if s != [] && s[0] <= ' ' then TrimStart(s[1..]) else s
  }

  /** `s.trim()`, second half: drops trailing chars at or below U+0020. */
  function TrimEnd(s: string): (r: string)
    ensures |r| <= |s| && r == s[..|r|]
    ensures r != [] ==> r[|r| - 1] > ' '
    ensures forall i :: |r| <= i < |s| ==> s[i] <= ' '
  {
    if s != [] && s[|s| - 1] <= ' ' then TrimEnd(s[..|s| - 1]) else s
  }

  /**
   * Dropping a run of chars at or below U+0020 from the front of `s`, giving
   * `t`, and then from the back of `t`, giving `r`, leaves `r` as a slice of
   * `s` with only such chars around it.
   */
  lemma DroppedEnds(s: string, t: string, r: string)
    requires |t| <= |s| && t == s[|s| - |t|..] && forall k :: 0 <= k < |s| - |t| ==> s[k] <= ' '
    requires |r| <= |t| && r == t[..|r|] && forall k :: |r| <= k < |t| ==> t[k] <= ' '
    ensures exists i ::
      && 0 <= i <= |s| - |r| && r == s[i..][..|r|]
      && (forall k :: 0 <= k < i ==> s[k] <= ' ')
      && (forall k :: i + |r| <= k < |s| ==> s[k] <= ' ')
  {
    var i := |s| - |t|;
    forall k | i + |r| <= k < |s| ensures s[k] <= ' ' {
      assert s[k] == t[k - i];
    }
    assert r == s[i..][..|r|];
  }

  /** `s.trim()`: the part of `s` left when the chars at or below U+0020 are dropped from both ends. */
  function Trim(s: string): (r: string)
    ensures exists i ::
      && 0 <= i <= |s| - |r| && r == s[i..][..|r|]
      && (forall k :: 0 <= k < i ==> s[k] <= ' ')
      && (forall k :: i + |r| <= k < |s| ==> s[k] <= ' ')
    ensures r != [] ==> r[0] > ' ' && r[|r| - 1] > ' '
    ensures r == [] ==> forall i :: 0 <= i < |s| ==> s[i] <= ' '
  {
    DroppedEnds(s, TrimStart(s), TrimEnd(TrimStart(s)));
    TrimEnd(TrimStart(s))
  }

  /** A string that starts and ends above U+0020 is its own trim. */
  lemma TrimmedAlready(s: string)
    requires s != [] && s[0] > ' ' && s[|s| - 1] > ' '
    ensures Trim(s) == s
  {
    assert TrimStart(s) == s;
  }

  /** Every char of `t` is ASCII. */
  predicate IsAscii(t: string)
  {
    forall i :: 0 <= i < |t| ==> t[i] < '\U{80}'
  }

  /**
   * The common case of a char: ASCII upper case goes to lower case, and so do
   * the four non-ASCII chars whose Java case mapping lands in ASCII
   * (dotted and dotless i, long s, Kelvin sign).
   */
  function FoldCase(c: char): char
  {
    if 'A' <= c <= 'Z' then (c as int + 32) as char
    else if c == '\U{130}' || c == '\U{131}' then 'i'
    else if c == '\U{17F}' then 's'
    else if c == '\U{212A}' then 'k'
    else c
  }

  /**
   * `s.equalsIgnoreCase(t)` when `t` is ASCII: same length, and each char of `s`
   * equals the char of `t` at the same place, or maps to it through Java's
   * upper-case then lower-case mapping.
   */
  predicate EqualsIgnoreCase(s: string, t: string): (equal: bool)
    requires IsAscii(t)
    ensures s == t ==> equal
    ensures equal ==> |s| == |t|
  {
    |s| == |t| && forall i :: 0 <= i < |s| ==> FoldCase(s[i]) == FoldCase(t[i])
  }

  // ---------------------------------------------------------------- lemmas

  lemma OccursAtChar(s: string, c: char, j: int)
    ensures OccursAt(s, [c], j) <==> 0 <= j < |s| && s[j] == c
  {
    if 0 <= j < |s| {
      assert s[j..j + 1] == [s[j]];
    }
  }

  /** A single-char delimiter occurs in `s` exactly when some char of `s` is it. */
  lemma IndexOfChar(s: string, c: char)
    ensures IndexOf(s, [c]).None? <==> NoChar(s, c)
    ensures IndexOf(s, [c]).Some? ==> s[IndexOf(s, [c]).value] == c
    ensures IndexOf(s, [c]).Some? ==> NoChar(s[..IndexOf(s, [c]).value], c)
  {
    forall j ensures OccursAt(s, [c], j) <==> 0 <= j < |s| && s[j] == c {
      OccursAtChar(s, c, j);
    }
  }

  /** The first occurrence of a char that `k` does not contain, placed right after `k`. */
  lemma {:induction false} IndexOfAfter(k: string, c: char, v: string)
    requires NoChar(k, c)
    ensures IndexOf(k + [c] + v, [c]) == Some(|k|)
  {
    var s := k + [c] + v;
    forall j ensures OccursAt(s, [c], j) <==> 0 <= j < |s| && s[j] == c {
      OccursAtChar(s, c, j);
    }
    assert OccursAt(s, [c], |k|);
    var r := IndexOf(s, [c]);
    assert r.Some?;
  }

  /** Gluing the pieces back together gives the original string. */
  lemma {:induction false} JoinPieces(s: string, d: string)
    requires d != []
    ensures Join(Pieces(s, d), d) == s
    decreases |s|
  {
    match IndexOf(s, d)
    case None =>
    case Some(i) =>
      var rest := s[i + |d|..];
      var ps := Pieces(rest, d);
      JoinPieces(rest, d);
      assert Pieces(s, d) == [s[..i]] + ps;
      assert ([s[..i]] + ps)[1..] == ps;
      assert s == s[..i] + s[i..i + |d|] + rest;
  }

  /** Pieces of a string split on a single char never contain that char. */
  lemma {:induction false} PiecesNoChar(s: string, c: char)
    ensures forall k :: 0 <= k < |Pieces(s, [c])| ==> NoChar(Pieces(s, [c])[k], c)
    decreases |s|
  {
    IndexOfChar(s, c);
    match IndexOf(s, [c])
    case None =>
    case Some(i) =>
      PiecesNoChar(s[i + 1..], c);
  }

  /** Splitting the join of char-free strings on that char gives them back. */
  lemma {:induction false} PiecesOfJoin(ts: seq<string>, c: char)
    requires |ts| >= 1
    requires forall k :: 0 <= k < |ts| ==> NoChar(ts[k], c)
    ensures Pieces(Join(ts, [c]), [c]) == ts
  {
    if |ts| == 1 {
      IndexOfChar(ts[0], c);
    } else {
      var tail := Join(ts[1..], [c]);
      var s := ts[0] + [c] + tail;
      assert Join(ts, [c]) == s;
      IndexOfAfter(ts[0], c, tail);
      assert s[..|ts[0]|] == ts[0];
      assert s[|ts[0]| + 1..] == tail;
      assert Pieces(s, [c]) == [ts[0]] + Pieces(tail, [c]);
      PiecesOfJoin(ts[1..], c);
      assert ts == [ts[0]] + ts[1..];
    }
  }

  /** Appending one empty piece to a join adds one delimiter. */
  lemma {:induction false} JoinAppendEmpty(ts: seq<string>, d: string)
    requires |ts| >= 1
    ensures Join(ts + [""], d) == Join(ts, d) + d
  {
    if |ts| == 1 {
      assert (ts + [""])[1..] == [""];
    } else {
      assert (ts + [""])[1..] == ts[1..] + [""];
      JoinAppendEmpty(ts[1..], d);
    }
  }

  /** Appending `k` empty pieces to a join adds `k` delimiters. */
  lemma {:induction false} JoinTrailingEmpties(ts: seq<string>, c: char, k: nat)
    requires |ts| >= 1
    ensures Join(ts + seq(k, _ => ""), [c]) == Join(ts, [c]) + Repeat(c, k)
  {
    if k > 0 {
      var e := seq(k - 1, _ => "");
      assert ts + seq(k, _ => "") == (ts + e) + [""];
      JoinTrailingEmpties(ts, c, k - 1);
      JoinAppendEmpty(ts + e, [c]);
      assert Repeat(c, k) == Repeat(c, k - 1) + [c];
    } else {
      assert ts + seq(k, _ => "") == ts;
    }
  }

  /** Trailing empty pieces are exactly what `DropTrailingEmpty` removes. */
  lemma {:induction false} DropTrailingEmpties(ts: seq<string>, k: nat)
    requires |ts| >= 1 && ts[|ts| - 1] != ""
    ensures DropTrailingEmpty(ts + seq(k, _ => "")) == ts
  {
    if k > 0 {
      var e := seq(k - 1, _ => "");
      assert ts + seq(k, _ => "") == (ts + e) + [""];
      assert (ts + seq(k, _ => ""))[..|ts| + k - 1] == ts + e;
      DropTrailingEmpties(ts, k - 1);
    } else {
      assert ts + seq(k, _ => "") == ts;
    }
  }

  /**
   * Split on a single char, forwards: char-free tokens, the last one non-empty,
   * joined by the char and followed by any number of further copies of it,
   * split back into exactly those tokens.
   */
  lemma {:induction false} SplitOfJoin(ts: seq<string>, c: char, k: nat)
    requires |ts| >= 1 && ts[|ts| - 1] != ""
    requires forall i :: 0 <= i < |ts| ==> NoChar(ts[i], c)
    ensures Split(Join(ts, [c]) + Repeat(c, k), [c]) == ts
  {
    var ps := ts + seq(k, _ => "");
    forall i | 0 <= i < |ps| ensures NoChar(ps[i], c) {
      if i >= |ts| { assert ps[i] == ""; }
    }
    JoinTrailingEmpties(ts, c, k);
    PiecesOfJoin(ps, c);
    DropTrailingEmpties(ts, k);
    var s := Join(ts, [c]) + Repeat(c, k);
    if IndexOf(s, [c]).None? {
      assert Pieces(s, [c]) == [s];
    }
  }

  /**
   * Split on a single char, backwards: a non-empty string whose split is not
   * empty is its char-free tokens, the last one non-empty, joined by the char
   * and followed only by further copies of the char.
   */
  lemma {:induction false} SplitShape(s: string, c: char)
    requires s != []
    ensures var r := Split(s, [c]);
      r != [] ==>
        && (forall i :: 0 <= i < |r| ==> NoChar(r[i], c))
        && r[|r| - 1] != ""
        && |Join(r, [c])| <= |s|
        && s == Join(r, [c]) + Repeat(c, |s| - |Join(r, [c])|)
  {
    var r := Split(s, [c]);
    var ps := Pieces(s, [c]);
    JoinPieces(s, [c]);
    PiecesNoChar(s, c);
    if IndexOf(s, [c]).None? {
      assert ps == [s];
      assert r == [s];
      assert Repeat(c, 0) == "";
    } else if r != [] {
      var m := |ps| - |r|;
      assert ps == r + seq(m, _ => "") by {
        assert ps == r + ps[|r|..];
        assert ps[|r|..] == seq(m, _ => "");
      }
      JoinTrailingEmpties(r, c, m);
    }
  }

  /** A string made only of the delimiter splits into no strings at all. */
  lemma DelimitersOnly(c: char, k: nat)
    requires k >= 1
    ensures Split(Repeat(c, k), [c]) == []
  {
    var ps := [""] + seq(k, _ => "");
    JoinTrailingEmpties([""], c, k);
    assert Join([""], [c]) == "";
    assert forall i :: 0 <= i < |ps| ==> NoChar(ps[i], c) by {
      forall i | 0 <= i < |ps| ensures ps[i] == "" {
        if i > 0 { assert ps[i] == seq(k, _ => "")[i - 1]; }
      }
    }
    PiecesOfJoin(ps, c);
    assert OccursAt(Repeat(c, k), [c], 0) by {
      assert Repeat(c, k)[0..1] == [c];
    }
    var r := DropTrailingEmpty(ps);
    forall i | 0 <= i < |ps| ensures ps[i] == "" {
      if i > 0 { assert ps[i] == seq(k, _ => "")[i - 1]; }
    }
  }

  /**
   * Split on a single char, at the front: the first token is what precedes
   * the first occurrence of the char, and the split is empty exactly when the
   * string is made of the char alone.
   */
  lemma {:induction false} SplitHead(s: string, c: char)
    ensures IndexOf(s, [c]).Some? && Split(s, [c]) != [] ==> Split(s, [c])[0] == s[..IndexOf(s, [c]).value]
    ensures Split(s, [c]) == [] <==> s != [] && forall x :: x in s ==> x == c
  {
    if s != [] && forall x :: x in s ==> x == c {
      assert forall j :: 0 <= j < |s| ==> s[j] in s;
      assert s == Repeat(c, |s|);
      DelimitersOnly(c, |s|);
    }
    if Split(s, [c]) == [] {
      var ps := Pieces(s, [c]);
      assert IndexOf(s, [c]).Some?;
      JoinPieces(s, [c]);
      assert ps == [""] + seq(|ps| - 1, _ => "");
      JoinTrailingEmpties([""], c, |ps| - 1);
      assert Join([""], [c]) == "";
      assert s == Repeat(c, |ps| - 1);
    }
  }

  /**
   * The separator ": " cannot overlap itself, so in a key without ": " followed by
   * ": " and anything at all, the first ": " is the one right after the key.
   */
  lemma IndexOfField(k: string, v: string)
    requires IndexOf(k, ": ").None?
    ensures IndexOf(k + ": " + v, ": ") == Some(|k|)
  {
    var d := ": ";
    var s := k + d + v;
    assert OccursAt(s, d, |k|) by { assert s[|k|..|k| + 2] == d; }
    forall j | 0 <= j < |k| ensures !OccursAt(s, d, j) {
      if j + 2 <= |k| {
        assert k[j..j + 2] == s[j..j + 2];
        assert !OccursAt(k, d, j);
      } else {
        assert s[j + 1] == ':';
        assert s[j..j + 2][1] == ':';
        assert d[1] == ' ';
      }
    }
  }

  /**
   * A key and a value that do not contain ": ", joined by one ": ", split into
   * exactly the key and the value when the value is not empty.
   */
  lemma SplitKeyValue(k: string, v: string)
    requires IndexOf(k, ": ").None? && IndexOf(v, ": ").None?
    requires v != ""
    ensures Split(k + ": " + v, ": ") == [k, v]
  {
    var s := k + ": " + v;
    IndexOfField(k, v);
    assert s[..|k|] == k;
    assert s[|k| + 2..] == v;
    assert Pieces(v, ": ") == [v];
    assert Pieces(s, ": ") == [k, v];
  }
}
