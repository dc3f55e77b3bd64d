/**
 * The parts of Ruby's String, Array and File behaviour that asset paths and
 * URLs are built from: File.join, Array#join, String#split(str).last,
 * String#downcase and File.dirname.
 */
module RubyStrings {
  import opened Outcomes

  predicate StartsWithSep(s: string) {
    |s| > 0 && s[0] == '/'
  }

  predicate EndsWithSep(s: string) {
    |s| > 0 && s[|s| - 1] == '/'
  }

  /** `s` without its trailing run of separators. */
  function TrimTrailingSeps(s: string): (r: string)
    ensures |r| <= |s| && r == s[..|r|]
    ensures !EndsWithSep(r)
    ensures forall i :: |r| <= i < |s| ==> s[i] == '/'
  {
    if EndsWithSep(s) then TrimTrailingSeps(s[..|s| - 1]) else s
  }

  /** A string with a character other than '/' keeps that character when trimmed. */
  lemma TrimKeepsNonSep(s: string, i: int)
    requires 0 <= i < |s| && s[i] != '/'
    ensures TrimTrailingSeps(s) != ""
    ensures i < |TrimTrailingSeps(s)|
  {
  }

  /**
   * File.join of two operands. When the right operand starts with a
   * separator the left one loses its trailing separators; when neither side
   * has one at the seam a single '/' is put in; otherwise both are kept.
   */
  function Join(a: string, b: string): (r: string)
    ensures |b| <= |r| && r[|r| - |b|..] == b
  {
    if StartsWithSep(b) then TrimTrailingSeps(a) + b
    else if EndsWithSep(a) then a + b
    else a + "/" + b
  }

  /** File.join(head, *parts): the operands are joined left to right. */
  function JoinAll(head: string, parts: seq<string>): string
    decreases |parts|
  {
    if parts == [] then head else JoinAll(Join(head, parts[0]), parts[1..])
  }

  /** File.join(head, a, b, c) joins its operands one at a time. */
  lemma {:induction false} JoinAllThree(head: string, a: string, b: string, c: string)
    ensures JoinAll(head, [a, b, c]) == Join(Join(Join(head, a), b), c)
  {
    var h1, h2 := Join(head, a), Join(Join(head, a), b);
    assert [a, b, c][1..] == [b, c];
    assert JoinAll(head, [a, b, c]) == JoinAll(h1, [b, c]);
    assert [b, c][1..] == [c];
    assert JoinAll(h1, [b, c]) == JoinAll(h2, [c]);
    assert [c][1..] == [];
    assert JoinAll(h2, [c]) == Join(h2, c);
  }

  /** Joining one more operand joins it onto the result so far. */
  lemma {:induction false} JoinAllSnoc(head: string, parts: seq<string>, last: string)
    ensures JoinAll(head, parts + [last]) == Join(JoinAll(head, parts), last)
    decreases |parts|
  {
    if parts == [] {
      assert ([] + [last])[1..] == [];
    } else {
      assert (parts + [last])[1..] == parts[1..] + [last];
      JoinAllSnoc(Join(head, parts[0]), parts[1..], last);
    }
  }

  /**
   * A join never reaches back past a character other than '/': once the
   * left operand has one after a prefix, the prefix stays as it is.
   */
  lemma JoinUnderPrefix(pre: string, q: string, b: string, i: int)
    requires 0 <= i < |q| && q[i] != '/'
    ensures Join(pre + q, b) == pre + Join(q, b)
    ensures i < |Join(q, b)| && Join(q, b)[i] == q[i]
  {
    TrimKeepsNonSep(q, i);
    var tq := TrimTrailingSeps(q);
    if StartsWithSep(b) {
      TrimUnderPrefix(pre, q, i);
      calc {
        Join(pre + q, b);
        TrimTrailingSeps(pre + q) + b;
        (pre + tq) + b;
        pre + (tq + b);
        pre + Join(q, b);
      }
      assert Join(q, b)[i] == tq[i];
    } else {
      assert EndsWithSep(pre + q) == EndsWithSep(q) by {
        assert (pre + q)[|pre + q| - 1] == q[|q| - 1];
      }
      if EndsWithSep(q) {
        assert (pre + q) + b == pre + (q + b);
      } else {
        assert (pre + q) + "/" + b == pre + (q + "/" + b);
      }
    }
  }


  lemma {:induction false} TrimUnderPrefix(pre: string, q: string, i: int)
    requires 0 <= i < |q| && q[i] != '/'
    ensures TrimTrailingSeps(pre + q) == pre + TrimTrailingSeps(q)
    decreases |q|
  {
    if EndsWithSep(q) {
      assert (pre + q)[..|pre + q| - 1] == pre + q[..|q| - 1];
      TrimUnderPrefix(pre, q[..|q| - 1], i);
    }
  }

  lemma {:induction false} JoinAllUnderPrefix(pre: string, q: string, parts: seq<string>, i: int)
    requires 0 <= i < |q| && q[i] != '/'
    ensures JoinAll(pre + q, parts) == pre + JoinAll(q, parts)
    decreases |parts|
  {
    if parts != [] {
      JoinUnderPrefix(pre, q, parts[0], i);
      JoinAllUnderPrefix(pre, Join(q, parts[0]), parts[1..], i);
    }
  }

  /** Array#join(sep). */
  function ArrayJoin(parts: seq<string>, sep: string): string
    decreases |parts|
  {
    if parts == [] then ""
    else if |parts| == 1 then parts[0]
    else parts[0] + sep + ArrayJoin(parts[1..], sep)
  }

  lemma ArrayJoinThree(a: string, b: string, c: string, sep: string)
    ensures ArrayJoin([a, b, c], sep) == a + sep + b + sep + c
  {
    assert [b, c][1..] == [c];
    assert ArrayJoin([b, c], sep) == b + sep + c;
    assert [a, b, c][1..] == [b, c];
  }

  lemma ArrayJoinFour(a: string, b: string, c: string, d: string, sep: string)
    ensures ArrayJoin([a, b, c, d], sep) == a + sep + b + sep + c + sep + d
  {
    ArrayJoinThree(b, c, d, sep);
    assert [a, b, c, d][1..] == [b, c, d];
  }

  lemma ArrayJoinFive(a: string, b: string, c: string, d: string, e: string, sep: string)
    ensures ArrayJoin([a, b, c, d, e], sep) == a + sep + b + sep + c + sep + d + sep + e
  {
    assert [a, b, c, d, e][1..] == [b, c, d, e];
    ArrayJoinFour(b, c, d, e, sep);
  }

  // ----- occurrences of a separator string -----

  predicate OccursAt(s: string, sep: string, i: int) {
    0 <= i && i + |sep| <= |s| && s[i..i + |sep|] == sep
  }

  ghost predicate Contains(s: string, sep: string) {
    exists i :: OccursAt(s, sep, i)
  }

  /** An occurrence in a suffix is an occurrence in the whole string, shifted. */
  lemma OccursShift(s: string, sep: string, k: nat, i: int)
    requires k <= |s|
    ensures OccursAt(s[k..], sep, i) <==> i >= 0 && OccursAt(s, sep, i + k)
  {
    if 0 <= i && i + |sep| <= |s| - k {
      assert s[k..][i..i + |sep|] == s[i + k..i + k + |sep|];
    }
  }

  lemma ContainsTail(s: string, sep: string)
    requires |s| > 0 && !OccursAt(s, sep, 0)
    ensures Contains(s, sep) <==> Contains(s[1..], sep)
  {
    if Contains(s, sep) {
      var i :| OccursAt(s, sep, i);
      OccursShift(s, sep, 1, i - 1);
      assert OccursAt(s[1..], sep, i - 1);
    }
    if Contains(s[1..], sep) {
      var i :| OccursAt(s[1..], sep, i);
      OccursShift(s, sep, 1, i);
      assert OccursAt(s, sep, i + 1);
    }
  }

  /** A string that lacks the first character of `sep` cannot contain it. */
  lemma NoHead(s: string, sep: string)
    requires |sep| > 0 && sep[0] !in s
    ensures !Contains(s, sep)
  {
    forall i | 0 <= i && i + |sep| <= |s| ensures !OccursAt(s, sep, i) {
      assert s[i..i + |sep|][0] == s[i];
    }
  }

  /** A string no longer than `sep` contains it only by being it. */
  lemma NotSame(s: string, sep: string)
    requires |s| <= |sep| && s != sep
    ensures !Contains(s, sep)
  {
    forall i | 0 <= i && i + |sep| <= |s| ensures !OccursAt(s, sep, i) {
      assert s[i..i + |sep|] == s;
    }
  }

  /** No occurrence can straddle a character that `sep` does not contain. */
  lemma NotAcross(a: string, c: char, b: string, sep: string)
    requires c !in sep
    requires !Contains(a, sep) && !Contains(b, sep)
    ensures !Contains(a + [c] + b, sep)
  {
    var s := a + [c] + b;
    forall i | 0 <= i && i + |sep| <= |s| ensures !OccursAt(s, sep, i) {
      if i + |sep| <= |a| {
        assert s[i..i + |sep|] == a[i..i + |sep|];
        assert !OccursAt(a, sep, i);
      } else if i > |a| {
        var j := i - |a| - 1;
        assert s[i..i + |sep|] == b[j..j + |sep|];
        assert !OccursAt(b, sep, j);
      } else {
        assert s[i..i + |sep|][|a| - i] == c;
      }
    }
  }

  // ----- String#split(sep).last -----

  function Last(ps: seq<string>): string
    requires |ps| > 0
  {
    ps[|ps| - 1]
  }

  /** The pieces of `s` between the occurrences of `sep`, found left to right without overlap. */
  function Pieces(s: string, sep: string): (r: seq<string>)
    requires |sep| > 0
    ensures |r| > 0
    decreases |s|
  {
    if |s| < |sep| then [s]
    else if s[..|sep|] == sep then [""] + Pieces(s[|sep|..], sep)
    else
      var rest := Pieces(s[1..], sep);
      [[s[0]] + rest[0]] + rest[1..]
  }

  /**
   * What split leaves last: a suffix of `s` with no occurrence of `sep`;
   * unless it is all of `s`, an occurrence ends right before it; and it is
   * all of `s` exactly when `s` does not contain `sep`.
   */
  ghost predicate LastPieceOk(s: string, sep: string, r: seq<string>)
    requires |r| > 0
  {
    && (|r| == 1 <==> !Contains(s, sep))
    && (|r| == 1 ==> r[0] == s)
    && |Last(r)| <= |s| && Last(r) == s[|s| - |Last(r)|..]
    && (|r| > 1 ==> OccursAt(s, sep, |s| - |Last(r)| - |sep|))
    && !Contains(Last(r), sep)
  }

  lemma {:induction false} PiecesLast(s: string, sep: string)
    requires |sep| > 0
    ensures LastPieceOk(s, sep, Pieces(s, sep))
    decreases |s|
  {
    if |s| < |sep| {
      NotSame(s, sep);
    } else if s[..|sep|] == sep {
      var rest := Pieces(s[|sep|..], sep);
      PiecesLast(s[|sep|..], sep);
      PiecesLastAfterSep(s, sep, rest);
    } else {
      var rest := Pieces(s[1..], sep);
      PiecesLast(s[1..], sep);
      PiecesLastAfterChar(s, sep, rest);
    }
  }

  /** The step of PiecesLast past an occurrence at the start of `s`. */
  lemma {:induction false} PiecesLastAfterSep(s: string, sep: string, rest: seq<string>)
    requires |sep| > 0 && |sep| <= |s| && s[..|sep|] == sep
    requires |rest| > 0 && LastPieceOk(s[|sep|..], sep, rest)
    ensures LastPieceOk(s, sep, [""] + rest)
  {
    var t := s[|sep|..];
    var l := Last(rest);
    assert Last([""] + rest) == l;
    assert OccursAt(s, sep, 0);
    assert t[|t| - |l|..] == s[|s| - |l|..];
    if |rest| > 1 {
      OccursShift(s, sep, |sep|, |t| - |l| - |sep|);
    }
  }

  /** The step of PiecesLast past a first character that starts no occurrence. */
  lemma {:induction false} PiecesLastAfterChar(s: string, sep: string, rest: seq<string>)
    requires |sep| > 0 && |sep| <= |s| && s[..|sep|] != sep
    requires |rest| > 0 && LastPieceOk(s[1..], sep, rest)
    ensures LastPieceOk(s, sep, [[s[0]] + rest[0]] + rest[1..])
  {
    var t := s[1..];
    var r := [[s[0]] + rest[0]] + rest[1..];
    assert !OccursAt(s, sep, 0);
    ContainsTail(s, sep);
    if |rest| == 1 {
      assert r == [s] by {
        assert [s[0]] + t == s;
      }
    } else {
      var l := Last(rest);
      assert Last(r) == l;
      assert t[|t| - |l|..] == s[|s| - |l|..];
      OccursShift(s, sep, 1, |t| - |l| - |sep|);
    }
  }

  /** The pieces without the trailing empty ones, as split drops them. */
  function DropTrailingEmpty(ps: seq<string>): (r: seq<string>)
    ensures |r| <= |ps| && r == ps[..|r|]
    ensures r == [] || Last(r) != ""
  {
    if ps == [] then []
    else if Last(ps) == "" then DropTrailingEmpty(ps[..|ps| - 1])
    else ps
  }

  /** s.split(sep) for a separator string (not the single-space special case). */
  function Split(s: string, sep: string): seq<string>
    requires |sep| > 0
  {
    DropTrailingEmpty(Pieces(s, sep))
  }

  /** s.split(sep).last, None standing for nil. */
  function SplitLast(s: string, sep: string): Option<string>
    requires |sep| > 0
  {
    var ps := Split(s, sep);
    if ps == [] then None else Some(Last(ps))
  }

  /** A string without `sep` splits into itself alone. */
  lemma SplitLastWhole(s: string, sep: string)
    requires |sep| > 0 && s != "" && !Contains(s, sep)
    ensures SplitLast(s, sep) == Some(s)
  {
    PiecesLast(s, sep);
  }

  /** When the last piece is not empty, split(sep).last is that piece. */
  lemma SplitLastPiece(s: string, sep: string)
    requires |sep| > 0 && Last(Pieces(s, sep)) != ""
    ensures SplitLast(s, sep) == Some(Last(Pieces(s, sep)))
  {
  }

  /**
   * When `sep` occurs at the end of `x` in `x + sep + c`, no other
   * occurrence starts less than |sep| away from it, and `c` is non-empty and
   * free of `sep`, then split(sep).last is `c`.
   */
  lemma {:induction false} LastPieceAfter(x: string, sep: string, c: string)
    requires |sep| > 0 && c != "" && !Contains(c, sep)
    requires forall j :: |x| - |sep| < j < |x| + |sep| && j != |x| ==> !OccursAt(x + sep + c, sep, j)
    ensures SplitLast(x + sep + c, sep) == Some(c)
  {
    var s := x + sep + c;
    assert s[|x|..|x| + |sep|] == sep;
    assert s[|x| + |sep|..] == c;
    PiecesLast(s, sep);
    LastPieceFrom(s, sep, Pieces(s, sep), |x|);
    SplitLastPiece(s, sep);
  }

  /**
   * A last piece that follows an occurrence at `k`, when no other
   * occurrence starts less than |sep| away from it and none follows it.
   */
  lemma {:induction false} LastPieceFrom(s: string, sep: string, r: seq<string>, k: int)
    requires |sep| > 0 && |r| > 0 && LastPieceOk(s, sep, r)
    requires OccursAt(s, sep, k) && !Contains(s[k + |sep|..], sep)
    requires forall j :: k - |sep| < j < k + |sep| && j != k ==> !OccursAt(s, sep, j)
    ensures Last(r) == s[k + |sep|..]
  {
    var n, w, l := |s|, |sep|, Last(r);
    var m := n - k - w;
    OccursShift(s, sep, n - |l|, |l| - m - w);
    OccursShift(s, sep, k + w, n - |l| - w - k - w);
    assert |l| == m;
  }

  // ----- String#downcase -----

  function DowncaseChar(c: char): char {
    if 'A' <= c <= 'Z' then (c as int + 32) as char else c
  }

  function Downcase(s: string): string {
    seq(|s|, i requires 0 <= i < |s| => DowncaseChar(s[i]))
  }

  // ----- File.dirname -----

  /** The index of the last '/' of `s`, if any. */
  function LastSep(s: string): (r: Option<nat>)
    ensures r.Some? ==> r.value < |s| && s[r.value] == '/'
    ensures r.Some? ==> forall j :: r.value < j < |s| ==> s[j] != '/'
    ensures r.None? ==> '/' !in s
  {
    if s == [] then None
    else if s[|s| - 1] == '/' then Some(|s| - 1)
    else LastSep(s[..|s| - 1])
  }

  /**
   * File.dirname: trailing separators are ignored, then the last component
   * and the separators before it are dropped; "." when nothing is left of a
   * relative path, "/" when nothing is left of an absolute one.
   */
  function Dirname(path: string): string {
    var p := TrimTrailingSeps(path);
    if p == "" then (if path == "" then "." else "/")
    else match LastSep(p)
      case None => "."
      case Some(i) =>
        var d := TrimTrailingSeps(p[..i]);
        if d == "" then "/" else d
  }

  /** The directory of `dir/name` is `dir`, for a plain last component. */
  lemma DirnameOfChild(dir: string, name: string)
    requires |dir| > 0 && !EndsWithSep(dir)
    requires |name| > 0 && '/' !in name
    ensures Dirname(dir + "/" + name) == dir
  {
    var p := dir + "/" + name;
    assert p[|p| - 1] == name[|name| - 1];
    assert TrimTrailingSeps(p) == p;
    assert p[|dir|] == '/';
    var i := LastSep(p).value;
    assert i >= |dir|;
    forall j | |dir| < j < |p| ensures p[j] != '/' {
      assert p[j] == name[j - |dir| - 1];
    }
    assert i == |dir|;
    assert p[..i] == dir;
  }
}
