/**
 * The three java.lang.String operations the substitutor relies on, restricted
 * to the literal one-character delimiter ",":
 *  - s.split(",")          (limit 0: trailing empty strings are removed),
 *  - String.join(",", xs),
 *  - s.trim()              (strips characters whose code is at most U+0020).
 */
module JavaString {

  const Delimiter: char := ','

  /** The characters String.trim() removes from either end. */
  predicate IsTrimmable(c: char) {
    c <= ' '
  }

  predicate AllTrimmable(s: string) {
    forall k :: 0 <= k < |s| ==> IsTrimmable(s[k])
  }

  // ---------------------------------------------------------------- trim

  /** Number of trimmable characters at the front of `s`. */
  function LeadingSpaces(s: string): (n: nat)
    ensures n <= |s|
    ensures forall k :: 0 <= k < n ==> IsTrimmable(s[k])
    ensures n < |s| ==> !IsTrimmable(s[n])
  {
    if s != [] && IsTrimmable(s[0]) then 1 + LeadingSpaces(s[1..]) else 0
  }

  /** Number of trimmable characters at the back of `s`. */
  function TrailingSpaces(s: string): (n: nat)
    ensures n <= |s|
    ensures forall k :: |s| - n <= k < |s| ==> IsTrimmable(s[k])
    ensures n < |s| ==> !IsTrimmable(s[|s| - 1 - n])
  {
    if s != [] && IsTrimmable(s[|s| - 1]) then 1 + TrailingSpaces(s[..|s| - 1]) else 0
  }

  /** String.trim(): `s` without its leading and trailing trimmable characters. */
  function Trim(s: string): (r: string)
    ensures |r| <= |s|
    ensures r == [] || (!IsTrimmable(r[0]) && !IsTrimmable(r[|r| - 1]))
    ensures r == [] <==> AllTrimmable(s)
  {
    var t := s[LeadingSpaces(s)..];
    t[..|t| - TrailingSpaces(t)]
  }

  /** LeadingSpaces counts up to the first untrimmable character, wherever that is. */
  lemma {:induction false} LeadingSpacesAt(s: string, a: nat)
    requires a <= |s| && AllTrimmable(s[..a])
    requires a < |s| ==> !IsTrimmable(s[a])
    ensures LeadingSpaces(s) == a
  {
    if a > 0 {
      assert s[..a][0] == s[0];
      assert s[1..][..a - 1] == s[..a][1..];
      LeadingSpacesAt(s[1..], a - 1);
    }
  }

  /** TrailingSpaces counts back to the last untrimmable character, wherever that is. */
  lemma {:induction false} TrailingSpacesAt(s: string, b: nat)
    requires b <= |s| && AllTrimmable(s[b..])
    requires b > 0 ==> !IsTrimmable(s[b - 1])
    ensures TrailingSpaces(s) == |s| - b
  {
    if b < |s| {
      assert s[b..][|s| - 1 - b] == s[|s| - 1];
      assert s[..|s| - 1][b..] == s[b..][..|s| - 1 - b];
      TrailingSpacesAt(s[..|s| - 1], b);
    }
  }

  /**
   * Trim is determined by where the untrimmable part starts and ends: whatever
   * slice s[a..b] has only trimmable characters around it, and begins and ends
   * with an untrimmable one, is what Trim returns.
   */
  lemma TrimIsSlice(s: string, a: nat, b: nat)
    requires a <= b <= |s|
    requires AllTrimmable(s[..a]) && AllTrimmable(s[b..])
    requires a < b ==> !IsTrimmable(s[a]) && !IsTrimmable(s[b - 1])
    ensures Trim(s) == s[a..b]
  {
    if a == b {
      TrimmableAround(s, a);
    } else {
      TrimOfInnerSlice(s, a, b);
    }
  }

  /** A string made of trimmable characters on both sides of `a` trims to nothing. */
  lemma TrimmableAround(s: string, a: nat)
    requires a <= |s| && AllTrimmable(s[..a]) && AllTrimmable(s[a..])
    ensures Trim(s) == []
  {
    assert forall k :: 0 <= k < a ==> s[..a][k] == s[k];
    assert forall k :: a <= k < |s| ==> s[a..][k - a] == s[k];
    assert AllTrimmable(s);
  }

  /** TrimIsSlice for a non-empty slice. */
  lemma TrimOfInnerSlice(s: string, a: nat, b: nat)
    requires a < b <= |s|
    requires AllTrimmable(s[..a]) && AllTrimmable(s[b..])
    requires !IsTrimmable(s[a]) && !IsTrimmable(s[b - 1])
    ensures Trim(s) == s[a..b]
  {
    LeadingSpacesAt(s, a);
    var t := s[a..];
    assert t[b - a..] == s[b..];
    assert t[b - a - 1] == s[b - 1];
    TrailingSpacesAt(t, b - a);
  }

  /** Trimming twice trims nothing more. */
  lemma TrimIdempotent(s: string)
    ensures Trim(Trim(s)) == Trim(s)
  {
    var r := Trim(s);
    TrimIsSlice(r, 0, |r|);
  }

  // --------------------------------------------------------------- split

  /** Position of the first delimiter in `s`, or |s| when there is none. */
  function DelimiterIndex(s: string): (i: nat)
    ensures i <= |s|
    ensures Delimiter !in s[..i]
    ensures i < |s| ==> s[i] == Delimiter
  {
    if s == [] || s[0] == Delimiter then 0 else 1 + DelimiterIndex(s[1..])
  }

  /**
   * `s` cut at every delimiter, keeping every piece, empty ones included
   * (what split(",", -1) returns).
   */
  function Cut(s: string): (parts: seq<string>)
    ensures |parts| >= 1
    ensures forall k :: 0 <= k < |parts| ==> Delimiter !in parts[k]
    decreases |s|
  {
    var i := DelimiterIndex(s);
    if i == |s| then [s] else [s[..i]] + Cut(s[i + 1..])
  }

  /** `parts` without the empty strings at its end. */
  function DropTrailingEmpty(parts: seq<string>): (r: seq<string>)
    ensures r <= parts
    ensures r == [] || r[|r| - 1] != []
    ensures forall k :: |r| <= k < |parts| ==> parts[k] == []
  {
    if parts == [] || parts[|parts| - 1] != [] then parts
    else DropTrailingEmpty(parts[..|parts| - 1])
  }

  /**
   * s.split(","): a string with no delimiter is its own only part; otherwise
   * the string is cut at every delimiter and the trailing empty parts are
   * removed (a leading empty part stays).
   */
  function Split(s: string): (parts: seq<string>)
    ensures forall k :: 0 <= k < |parts| ==> Delimiter !in parts[k]
    ensures |parts| > 1 ==> parts[|parts| - 1] != []
    ensures Delimiter !in s ==> parts == [s]
    ensures Delimiter in s ==> parts <= Cut(s) && forall k :: |parts| <= k < |Cut(s)| ==> Cut(s)[k] == []
  {
    if Delimiter !in s then [s] else DropTrailingEmpty(Cut(s))
  }

  /** String.join(",", parts). */
  function Join(parts: seq<string>): (s: string)
    ensures parts == [] ==> s == []
    ensures parts != [] ==> parts[0] <= s
    ensures |parts| > 1 ==> |parts[0]| < |s| && s[|parts[0]|] == Delimiter
  {
    if parts == [] then []
    else if |parts| == 1 then parts[0]
    else parts[0] + [Delimiter] + Join(parts[1..])
  }

  // ----------------------------------------------------- split and join

  /** Joining the pieces of a cut gives the string back. */
  lemma {:induction false} JoinCut(s: string)
    ensures Join(Cut(s)) == s
    decreases |s|
  {
    var i := DelimiterIndex(s);
    if i < |s| {
      var rest := Cut(s[i + 1..]);
      CutAt(s, i);
      JoinCons(s[..i], rest);
      JoinCut(s[i + 1..]);
      assert s == s[..i] + [Delimiter] + s[i + 1..];
    } else {
      assert Cut(s) == [s];
    }
  }

  /** DelimiterIndex finds the first delimiter, wherever that is. */
  lemma {:induction false} DelimiterIndexAt(s: string, i: nat)
    requires i <= |s| && Delimiter !in s[..i]
    requires i < |s| ==> s[i] == Delimiter
    ensures DelimiterIndex(s) == i
  {
    if i > 0 {
      assert s[0] in s[..i];
      assert s[1..][..i - 1] == s[..i][1..];
      DelimiterIndexAt(s[1..], i - 1);
    }
  }

  /** Cutting a join of delimiter-free parts gives the parts back. */
  lemma {:induction false} CutJoin(parts: seq<string>)
    requires parts != []
    requires forall k :: 0 <= k < |parts| ==> Delimiter !in parts[k]
    ensures Cut(Join(parts)) == parts
  {
    var p := parts[0];
    if |parts| == 1 {
      CutWhole(p);
    } else {
      var rest := parts[1..];
      assert parts == [p] + rest;
      JoinCons(p, rest);
      CutAfterWhole(p, Join(rest));
      CutJoin(rest);
    }
  }

  /** A string cut at its first delimiter `i`: the text before it, then the rest cut. */
  lemma CutAt(s: string, i: nat)
    requires i == DelimiterIndex(s) < |s|
    ensures Cut(s) == [s[..i]] + Cut(s[i + 1..])
  {
  }

  /** A delimiter-free string is cut into itself alone. */
  lemma CutWhole(s: string)
    requires Delimiter !in s
    ensures Cut(s) == [s]
  {
    assert s[..|s|] == s;
    DelimiterIndexAt(s, |s|);
  }

  /** A delimiter-free `x` before a delimiter is cut off whole. */
  lemma CutAfterWhole(x: string, y: string)
    requires Delimiter !in x
    ensures Cut(x + [Delimiter] + y) == [x] + Cut(y)
  {
    var w := x + [Delimiter] + y;
    assert w[..|x|] == x && w[|x| + 1..] == y;
    DelimiterIndexAt(w, |x|);
    CutAt(w, |x|);
  }

  /**
   * When `x` holds a delimiter at `i`, `x` followed by a delimiter and `y`
   * loses the same first piece as `x` does.
   */
  lemma CutAppendStep(x: string, y: string, i: nat)
    requires i == DelimiterIndex(x) < |x|
    ensures Cut(x + [Delimiter] + y) == [x[..i]] + Cut(x[i + 1..] + [Delimiter] + y)
  {
    var w := x + [Delimiter] + y;
    assert w[..i] == x[..i];
    assert w[i + 1..] == x[i + 1..] + [Delimiter] + y;
    DelimiterIndexAt(w, i);
    CutAt(w, i);
  }

  /** Cutting distributes over a delimiter: each side is cut on its own. */
  lemma {:induction false} CutAppend(x: string, y: string)
    ensures Cut(x + [Delimiter] + y) == Cut(x) + Cut(y)
    decreases |x|
  {
    var i := DelimiterIndex(x);
    if i == |x| {
      assert x[..i] == x;
      CutAfterWhole(x, y);
      CutWhole(x);
    } else {
      CutAppendStep(x, y, i);
      CutAt(x, i);
      CutAppend(x[i + 1..], y);
      ConsAppend(x[..i], Cut(x[i + 1..]), Cut(y));
    }
  }

  /** Updating one element is cutting the sequence around it. */
  lemma UpdateAround<T>(s: seq<T>, i: nat, v: T)
    requires i < |s|
    ensures s[i := v] == s[..i] + [v] + s[i + 1..]
  {
  }

  /** Prepending one element and appending a sequence can be done in either order. */
  lemma ConsAppend<T>(a: T, b: seq<T>, c: seq<T>)
    ensures [a] + (b + c) == ([a] + b) + c
  {
  }

  /** A join of a first part and a non-empty rest puts a delimiter between them. */
  lemma JoinCons(p: string, rest: seq<string>)
    requires rest != []
    ensures Join([p] + rest) == p + [Delimiter] + Join(rest)
  {
    assert ([p] + rest)[1..] == rest;
  }

  /**
   * Joining delimiter-free parts around one arbitrary part `x` and cutting
   * again gives the parts back, with `x` cut into its own pieces.
   */
  lemma {:induction false} CutJoinAround(before: seq<string>, x: string, after: seq<string>)
    requires forall k :: 0 <= k < |before| ==> Delimiter !in before[k]
    requires forall k :: 0 <= k < |after| ==> Delimiter !in after[k]
    ensures Cut(Join(before + [x] + after)) == before + Cut(x) + after
    decreases |before|
  {
    if before == [] {
      assert before + [x] + after == [x] + after;
      CutJoinFront(x, after);
    } else {
      var p, rest := before[0], before[1..];
      assert before == [p] + rest;
      ConsAround(p, rest, [x], after);
      JoinCons(p, rest + [x] + after);
      CutAppend(p, Join(rest + [x] + after));
      CutJoinAround(rest, x, after);
      CutWhole(p);
      ConsAround(p, rest, Cut(x), after);
    }
  }

  /** Joining `x` in front of delimiter-free parts and cutting again gives `x` cut, then the parts. */
  lemma CutJoinFront(x: string, after: seq<string>)
    requires forall k :: 0 <= k < |after| ==> Delimiter !in after[k]
    ensures Cut(Join([x] + after)) == Cut(x) + after
  {
    if after == [] {
      assert [x] + after == [x];
    } else {
      JoinCons(x, after);
      CutAppend(x, Join(after));
      CutJoin(after);
    }
  }

  /** A first element in front of three pieces regroups to the front of their concatenation. */
  lemma ConsAround<T>(p: T, rest: seq<T>, mid: seq<T>, after: seq<T>)
    ensures [p] + rest + mid + after == [p] + (rest + mid + after)
  {
  }

  /** A join of two or more parts holds a delimiter. */
  lemma JoinHasDelimiter(parts: seq<string>)
    requires |parts| >= 2
    ensures Delimiter in Join(parts)
  {
    assert Join(parts)[|parts[0]|] == Delimiter;
  }

  /** The last piece of a cut is empty exactly when the string is empty or ends with a delimiter. */
  lemma {:induction false} CutLastEmpty(s: string)
    ensures Cut(s)[|Cut(s)| - 1] == [] <==> (s == [] || s[|s| - 1] == Delimiter)
    decreases |s|
  {
    var i := DelimiterIndex(s);
    if i < |s| {
      var rest := s[i + 1..];
      CutLastEmpty(rest);
      if rest != [] {
        assert rest[|rest| - 1] == s[|s| - 1];
      }
    } else if s != [] {
      assert s[..|s|] == s;
      assert s[|s| - 1] in s[..i];
    }
  }

  /** A non-empty join whose last part is non-empty ends with that part's last character. */
  lemma {:induction false} JoinEndsWithLastPart(parts: seq<string>)
    requires parts != [] && parts[|parts| - 1] != []
    ensures Join(parts) != []
    ensures Join(parts)[|Join(parts)| - 1] == parts[|parts| - 1][|parts[|parts| - 1]| - 1]
  {
    if |parts| > 1 {
      JoinEndsWithLastPart(parts[1..]);
    }
  }

  /**
   * Joining a split line restores it exactly when the line does not end with
   * a delimiter: split loses trailing empty fields, and nothing else.
   */
  lemma JoinSplit(s: string)
    ensures Join(Split(s)) == s <==> (s == [] || s[|s| - 1] != Delimiter)
  {
    if s == [] || s[|s| - 1] != Delimiter {
      JoinSplitKeeps(s);
    } else {
      JoinSplitLosesTrailing(s);
    }
  }

  lemma JoinSplitKeeps(s: string)
    requires s == [] || s[|s| - 1] != Delimiter
    ensures Join(Split(s)) == s
  {
    if Delimiter in s {
      CutLastEmpty(s);
      JoinCut(s);
    }
  }

  lemma JoinSplitLosesTrailing(s: string)
    requires s != [] && s[|s| - 1] == Delimiter
    ensures Join(Split(s)) != s
  {
    var r := Split(s);
    assert s[|s| - 1] in s;
    if r != [] {
      CutLastEmpty(s);
      JoinEndsWithLastPart(r);
      var last := r[|r| - 1];
      assert last[|last| - 1] in last;
    }
  }


  /**
   * Splitting a join of delimiter-free parts gives the parts back, unless
   * the last of several parts is empty (split would drop it).
   */
  lemma SplitJoin(parts: seq<string>)
    requires parts != []
    requires forall k :: 0 <= k < |parts| ==> Delimiter !in parts[k]
    requires |parts| == 1 || parts[|parts| - 1] != []
    ensures Split(Join(parts)) == parts
  {
    CutJoin(parts);
    if |parts| >= 2 {
      JoinHasDelimiter(parts);
    }
  }

  /** split(",") yields no part at all exactly for a non-empty line made only of delimiters. */
  lemma SplitEmpty(s: string)
    ensures Split(s) == [] <==> (s != [] && OnlyDelimiters(s))
  {
    if Delimiter in s {
      var c := Cut(s);
      if OnlyDelimiters(s) {
        OnlyDelimitersCut(s);
      } else {
        CutOnlyEmpty(s);
        var j :| 0 <= j < |c| && c[j] != [];
        var r := DropTrailingEmpty(c);
        assert |r| > j;
      }
    } else if s != [] {
      assert s[0] in s;
    }
  }

  predicate OnlyDelimiters(s: string) {
    forall k :: 0 <= k < |s| ==> s[k] == Delimiter
  }

  /** A line made only of delimiters is cut into empty pieces. */
  lemma {:induction false} OnlyDelimitersCut(s: string)
    requires OnlyDelimiters(s)
    ensures forall k :: 0 <= k < |Cut(s)| ==> Cut(s)[k] == []
    decreases |s|
  {
    if s != [] {
      DelimiterIndexAt(s, 0);
      var rest := s[1..];
      assert forall k :: 0 <= k < |rest| ==> rest[k] == s[k + 1];
      OnlyDelimitersCut(rest);
      assert Cut(s) == [[]] + Cut(rest);
    }
  }

  /** A line holding anything but delimiters is cut into at least one non-empty piece. */
  lemma {:induction false} CutOnlyEmpty(s: string)
    requires !OnlyDelimiters(s)
    ensures exists j :: 0 <= j < |Cut(s)| && Cut(s)[j] != []
    decreases |s|
  {
    var i := DelimiterIndex(s);
    if i > 0 {
      assert Cut(s)[0] == s[..i] && |s[..i]| > 0;
    } else {
      var rest := s[1..];
      var k :| 0 <= k < |s| && s[k] != Delimiter;
      assert rest[k - 1] == s[k];
      CutOnlyEmpty(rest);
      var j :| 0 <= j < |Cut(rest)| && Cut(rest)[j] != [];
      assert Cut(s)[j + 1] == Cut(rest)[j];
    }
  }
}
