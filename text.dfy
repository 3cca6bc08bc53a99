/** ASCII models of the Python string operations the quiz code relies on:
    `str.strip()`, `str.strip('"')`, `str.lower()`, `str.split(sep)` and a
    literal, leftmost, non-overlapping `re.sub`. */
module Text {

  /** Python's `str.isspace` restricted to ASCII: tab, line feed, vertical
      tab, form feed, carriage return, the four separators 0x1C..0x1F and space. */
  predicate IsSpace(c: char) {
    c == ' ' || ('\t' <= c <= '\r') || ('\U{1C}' <= c <= '\U{1F}')
  }

  /** The regular-expression class `\d`, restricted to ASCII. */
  predicate IsDigit(c: char) {
    '0' <= c <= '9'
  }

  predicate IsQuote(c: char) {
    c == '"'
  }

  /** Removes every leading character satisfying `drop`. */
  function LStrip(s: string, drop: char -> bool): string
    decreases |s|
  {
    if s != [] && drop(s[0]) then LStrip(s[1..], drop) else s
  }

  /** Removes every trailing character satisfying `drop`. */
  function RStrip(s: string, drop: char -> bool): string
    decreases |s|
  {
    if s != [] && drop(s[|s| - 1]) then RStrip(s[..|s| - 1], drop) else s
  }

  /** `s.strip(chars)`: both ends, the leading side first. */
  function Strip(s: string, drop: char -> bool): string {
    RStrip(LStrip(s, drop), drop)
  }

  /** LStrip removes exactly the longest prefix of dropped characters. */
  lemma {:induction false} LStripRemovesPrefix(s: string, drop: char -> bool)
    ensures |LStrip(s, drop)| <= |s| && LStrip(s, drop) == s[|s| - |LStrip(s, drop)|..]
    ensures forall i :: 0 <= i < |s| - |LStrip(s, drop)| ==> drop(s[i])
    ensures LStrip(s, drop) == [] || !drop(LStrip(s, drop)[0])
    decreases |s|
  {
    if s != [] && drop(s[0]) {
      LStripRemovesPrefix(s[1..], drop);
      assert forall i :: 1 <= i < |s| ==> s[i] == s[1..][i - 1];
    }
  }

  /** RStrip removes exactly the longest suffix of dropped characters. */
  lemma {:induction false} RStripRemovesSuffix(s: string, drop: char -> bool)
    ensures |RStrip(s, drop)| <= |s| && RStrip(s, drop) == s[..|RStrip(s, drop)|]
    ensures forall i :: |RStrip(s, drop)| <= i < |s| ==> drop(s[i])
    ensures RStrip(s, drop) == [] || !drop(RStrip(s, drop)[|RStrip(s, drop)| - 1])
    decreases |s|
  {
    if s != [] && drop(s[|s| - 1]) {
      RStripRemovesSuffix(s[..|s| - 1], drop);
      assert forall i :: 0 <= i < |s| - 1 ==> s[i] == s[..|s| - 1][i];
    }
  }

  /** Strip leaves a slice of `s` that neither starts nor ends with a
      dropped character. */
  lemma StripIsTrimmed(s: string, drop: char -> bool)
    ensures exists i, j :: 0 <= i <= j <= |s| && Strip(s, drop) == s[i..j]
    ensures Strip(s, drop) == [] || (!drop(Strip(s, drop)[0]) && !drop(Strip(s, drop)[|Strip(s, drop)| - 1]))
  {
    var l := LStrip(s, drop);
    var r := RStrip(l, drop);
    LStripRemovesPrefix(s, drop);
    RStripRemovesSuffix(l, drop);
    assert r == s[|s| - |l|..|s| - |l| + |r|];
  }

  /** `s.strip()` */
  function StripSpace(s: string): string {
    Strip(s, IsSpace)
  }

  /** `s.strip('"')` */
  function StripQuotes(s: string): string {
    Strip(s, IsQuote)
  }

  function LowerChar(c: char): char {
    if 'A' <= c <= 'Z' then (c as int + 32) as char else c
  }

  /** `s.lower()` on ASCII. */
  function Lower(s: string): string {
    if s == [] then [] else [LowerChar(s[0])] + Lower(s[1..])
  }

  /** Lower-casing keeps the length and maps each character on its own. */
  lemma {:induction false} LowerMapsEachChar(s: string)
    ensures |Lower(s)| == |s|
    ensures forall i :: 0 <= i < |s| ==> Lower(s)[i] == LowerChar(s[i])
  {
    if s != [] {
      LowerMapsEachChar(s[1..]);
    }
  }

  /* ---------------------------------------------------------------------
     Occurrences of a literal pattern
     --------------------------------------------------------------------- */

  /** `d` occurs in `t` starting at index `k`. */
  predicate Occurs(t: string, d: string, k: nat) {
    k + |d| <= |t| && t[k..k + |d|] == d
  }

  /** `d` does not occur anywhere in `t`. */
  predicate Free(t: string, d: string) {
    forall k: nat | k <= |t| :: !Occurs(t, d, k)
  }

  /** `w` is a prefix of `t`. */
  predicate StartsWith(t: string, w: string) {
    |w| <= |t| && t[..|w|] == w
  }

  /** `a` and `b` agree on their common length: one is a prefix of the other. */
  predicate Compatible(a: string, b: string) {
    if |a| <= |b| then b[..|a|] == a else a[..|b|] == b
  }

  /** No non-empty suffix of `x` is compatible with `q`: text `x` followed by
      anything never has an occurrence of `q` that starts inside `x`. */
  predicate NoPartial(x: string, q: string) {
    forall i :: 0 <= i < |x| ==> !Compatible(x[i..], q)
  }

  /** Index of the leftmost occurrence of `d` in `s`, as `str.find`. */
  function Find(s: string, d: string): (r: int)
    requires |d| > 0
    ensures r == -1 ==> Free(s, d)
    ensures r != -1 ==> 0 <= r && Occurs(s, d, r) && forall k: nat :: k < r ==> !Occurs(s, d, k)
    decreases |s|
  {
    if |s| < |d| then -1
    else if s[..|d|] == d then 0
    else
      var f := Find(s[1..], d);
      forall k: nat | k > 0 ensures Occurs(s, d, k) == Occurs(s[1..], d, k - 1) {
        OccursShift(s, d, k);
      }
      if f == -1 then -1 else f + 1
  }

  /** An occurrence past the first character is one in the tail. */
  lemma OccursShift(s: string, d: string, k: nat)
    requires s != [] && k > 0
    ensures Occurs(s, d, k) == Occurs(s[1..], d, k - 1)
  {
    if k + |d| <= |s| {
      var a, b := s[k..k + |d|], s[1..][k - 1..k - 1 + |d|];
      forall m | 0 <= m < |d| ensures a[m] == b[m] {
        assert a[m] == s[k + m] && b[m] == s[1..][k - 1 + m];
      }
      assert a == b;
    }
  }

  /** `sep.join(pieces)` */
  function Join(pieces: seq<string>, sep: string): string {
    if pieces == [] then []
    else if |pieces| == 1 then pieces[0]
    else pieces[0] + sep + Join(pieces[1..], sep)
  }

  /** `s.split(sep)`: cut at every leftmost, non-overlapping occurrence. Joining
      the pieces back gives `s`, no piece contains the separator, and every
      cut is at the leftmost occurrence: the separator after a piece is the
      first one that starts in the piece or right after it. */
  function Split(s: string, sep: string): (r: seq<string>)
    requires |sep| > 0
    ensures |r| >= 1
    ensures Join(r, sep) == s
    ensures forall i :: 0 <= i < |r| ==> Free(r[i], sep)
    ensures forall i :: 0 <= i < |r| - 1 ==> Find(r[i] + sep, sep) == |r[i]|
    decreases |s|
  {
    var f := Find(s, sep);
    if f == -1 then [s]
    else
      var rest := Split(s[f + |sep|..], sep);
      CutAtFirst(s, sep, f);
      CutIsLeftmost(s, sep, f);
      var r := [s[..f]] + rest;
      assert forall i :: 0 < i < |r| ==> r[i] == rest[i - 1];
      r
  }

  /** The contract of `Split` determines its result: pieces that join back
      to `s`, hold no separator and are cut at leftmost occurrences are the
      pieces `Split` returns. */
  lemma {:induction false} SplitUnique(s: string, sep: string, r: seq<string>)
    requires |sep| > 0 && |r| >= 1 && Join(r, sep) == s
    requires forall i :: 0 <= i < |r| ==> Free(r[i], sep)
    requires forall i :: 0 <= i < |r| - 1 ==> Find(r[i] + sep, sep) == |r[i]|
    ensures Split(s, sep) == r
    decreases |r|
  {
    if |r| == 1 {
      assert s == r[0];
      assert Find(s, sep) == -1;
    } else {
      var rest := r[1..];
      var tail := Join(rest, sep);
      SplitAtHead(s, sep, r[0], tail);
      assert forall i :: 0 <= i < |rest| ==> rest[i] == r[i + 1];
      SplitUnique(tail, sep, rest);
      assert r == [r[0]] + rest;
    }
  }

  /** Text that starts with a piece cut at its leftmost separator splits
      into that piece and the split of the rest. */
  lemma SplitAtHead(s: string, sep: string, head: string, tail: string)
    requires |sep| > 0 && s == head + sep + tail
    requires Find(head + sep, sep) == |head|
    ensures Split(s, sep) == [head] + Split(tail, sep)
  {
    var f, t := |head|, head + sep;
    assert t == s[..f + |sep|];
    assert Occurs(s, sep, f) by { assert s[f..f + |sep|] == sep; }
    forall k: nat | k < f ensures !Occurs(s, sep, k) {
      assert !Occurs(t, sep, k);
      assert t[k..k + |sep|] == s[k..k + |sep|];
    }
    FindIsFirst(s, sep, f);
    assert s[..f] == head && s[f + |sep|..] == tail;
  }

  /** Cutting `s` at the first occurrence `f` of `sep` leaves a head free of
      `sep`, and the head, `sep` and the tail make up `s`. */
  lemma CutAtFirst(s: string, sep: string, f: nat)
    requires |sep| > 0 && Occurs(s, sep, f)
    requires forall k: nat :: k < f ==> !Occurs(s, sep, k)
    ensures Free(s[..f], sep)
    ensures s == s[..f] + sep + s[f + |sep|..]
  {
    var head := s[..f];
    forall k: nat | k <= |head| ensures !Occurs(head, sep, k) {
      if k + |sep| <= |head| {
        assert head[k..k + |sep|] == s[k..k + |sep|];
        assert !Occurs(s, sep, k);
      }
    }
    assert s[f..f + |sep|] == sep;
    assert s == s[..f] + s[f..f + |sep|] + s[f + |sep|..];
  }

  /** The cut is at the leftmost occurrence: in the head followed by the
      separator, the first occurrence is the separator itself. */
  lemma CutIsLeftmost(s: string, sep: string, f: nat)
    requires |sep| > 0 && Occurs(s, sep, f)
    requires forall k: nat :: k < f ==> !Occurs(s, sep, k)
    ensures Find(s[..f] + sep, sep) == f
  {
    var t := s[..f] + sep;
    assert t == s[..f + |sep|];
    forall k: nat | k <= f ensures Occurs(t, sep, k) == Occurs(s, sep, k) {
      assert t[k..k + |sep|] == s[k..k + |sep|];
    }
    FindIsFirst(t, sep, f);
  }

  /** An occurrence with none before it is the one `find` returns. */
  lemma FindIsFirst(t: string, d: string, f: nat)
    requires |d| > 0 && Occurs(t, d, f)
    requires forall k: nat :: k < f ==> !Occurs(t, d, k)
    ensures Find(t, d) == f
  {
  }

  /** `re.sub(p, r, s)` for a literal pattern `p`: scan from the left and
      replace each occurrence, resuming the scan after it. */
  function ReplaceAll(s: string, p: string, r: string): (t: string)
    requires |p| > 0
    ensures |r| <= |p| ==> |t| <= |s|
    ensures |r| >= |p| ==> |t| >= |s|
    decreases |s|
  {
    if |s| < |p| then s
    else if s[..|p|] == p then r + ReplaceAll(s[|p|..], p, r)
    else [s[0]] + ReplaceAll(s[1..], p, r)
  }

  /** Text free of the pattern is left unchanged. */
  lemma {:induction false} ReplaceAllFree(s: string, p: string, r: string)
    requires |p| > 0 && Free(s, p)
    ensures ReplaceAll(s, p, r) == s
    decreases |s|
  {
    if |s| >= |p| {
      assert !Occurs(s, p, 0);
      FreeTail(s, p);
      ReplaceAllFree(s[1..], p, r);
    }
  }

  /** The literal replacement is `r.join(s.split(p))`: the text between the
      leftmost, non-overlapping occurrences is kept as it is, and each
      occurrence becomes `r`. */
  lemma {:induction false} ReplaceAllIsJoinOfSplit(s: string, p: string, r: string)
    requires |p| > 0
    ensures ReplaceAll(s, p, r) == Join(Split(s, p), r)
    decreases |s|
  {
    var f := Find(s, p);
    if f == -1 {
      ReplaceAllFree(s, p, r);
    } else {
      var rest := s[f + |p|..];
      ReplaceAllCut(s, p, r, f);
      ReplaceAllIsJoinOfSplit(rest, p, r);
      SplitAtFind(s, p);
      JoinCons(s[..f], Split(rest, p), r);
    }
  }

  /** At the leftmost occurrence `f`, the scan keeps `s[..f]`, writes `r` and
      resumes after the occurrence. */
  lemma ReplaceAllCut(s: string, p: string, r: string, f: nat)
    requires |p| > 0 && Occurs(s, p, f)
    requires forall k: nat :: k < f ==> !Occurs(s, p, k)
    ensures ReplaceAll(s, p, r) == s[..f] + r + ReplaceAll(s[f + |p|..], p, r)
  {
    var u, rest := s[f..], s[f + |p|..];
    assert ReplaceAll(s, p, r) == s[..f] + ReplaceAll(u, p, r) by {
      ReplaceAllSkip(s, p, r, f);
    }
    assert ReplaceAll(u, p, r) == r + ReplaceAll(rest, p, r) by {
      assert u[0..|p|] == s[f..f + |p|];
      ReplaceAllReplaces(u, p, r);
      assert u[|p|..] == rest;
    }
    AppendAssoc(s[..f], r, ReplaceAll(rest, p, r));
  }

  lemma AppendAssoc(a: string, b: string, c: string)
    ensures a + (b + c) == a + b + c
  {
  }

  /** An occurrence at the start is replaced and the scan resumes after it. */
  lemma ReplaceAllReplaces(s: string, p: string, r: string)
    requires |p| > 0 && Occurs(s, p, 0)
    ensures ReplaceAll(s, p, r) == r + ReplaceAll(s[|p|..], p, r)
  {
    assert s[..|p|] == s[0..|p|];
  }

  /** With no occurrence before `f`, the scan copies `s[..f]` unchanged. */
  lemma {:induction false} ReplaceAllSkip(s: string, p: string, r: string, f: nat)
    requires |p| > 0 && f + |p| <= |s|
    requires forall k: nat :: k < f ==> !Occurs(s, p, k)
    ensures ReplaceAll(s, p, r) == s[..f] + ReplaceAll(s[f..], p, r)
    decreases f
  {
    if f > 0 {
      var t, x := s[1..], ReplaceAll(s[f..], p, r);
      assert ReplaceAll(s, p, r) == [s[0]] + ReplaceAll(t, p, r) by {
        ReplaceAllCopies(s, p, r);
      }
      assert ReplaceAll(t, p, r) == t[..f - 1] + x by {
        NoneBeforeShift(s, p, f);
        ReplaceAllSkip(t, p, r, f - 1);
        assert t[f - 1..] == s[f..];
      }
      assert s[..f] == [s[0]] + t[..f - 1];
      AppendAssoc([s[0]], t[..f - 1], x);
    }
  }

  /** A first character that starts no occurrence is copied. */
  lemma ReplaceAllCopies(s: string, p: string, r: string)
    requires |p| > 0 && |s| >= |p| && !Occurs(s, p, 0)
    ensures ReplaceAll(s, p, r) == [s[0]] + ReplaceAll(s[1..], p, r)
  {
    assert s[..|p|] == s[0..|p|];
  }

  /** No occurrence before `f` in `s` is none before `f - 1` in its tail. */
  lemma NoneBeforeShift(s: string, p: string, f: nat)
    requires f > 0 && f <= |s|
    requires forall k: nat :: k < f ==> !Occurs(s, p, k)
    ensures forall k: nat :: k < f - 1 ==> !Occurs(s[1..], p, k)
  {
    forall k: nat | k < f - 1 ensures !Occurs(s[1..], p, k) {
      OccursShift(s, p, k + 1);
    }
  }

  /** `split` cuts at the leftmost occurrence `Find` reports. */
  lemma SplitAtFind(s: string, p: string)
    requires |p| > 0 && Find(s, p) != -1
    ensures Split(s, p) == [s[..Find(s, p)]] + Split(s[Find(s, p) + |p|..], p)
  {
  }

  /** Joining a first piece onto at least one more puts the separator between. */
  lemma JoinCons(a: string, pieces: seq<string>, sep: string)
    requires |pieces| >= 1
    ensures Join([a] + pieces, sep) == a + sep + Join(pieces, sep)
  {
    assert ([a] + pieces)[1..] == pieces;
  }

  /* ---------------------------------------------------------------------
     Lemmas about ReplaceAll
     --------------------------------------------------------------------- */

  lemma FreeTail(s: string, q: string)
    requires s != []
    ensures Free(s, q) ==> Free(s[1..], q)
  {
    if Free(s, q) {
      FreeDrop(s, q, 1);
    }
  }

  lemma FreeDrop(s: string, q: string, n: nat)
    requires n <= |s| && Free(s, q)
    ensures Free(s[n..], q)
  {
    forall k: nat | k <= |s[n..]| ensures !Occurs(s[n..], q, k) {
      if k + |q| <= |s| - n {
        assert s[n..][k..k + |q|] == s[k + n..k + n + |q|];
        assert !Occurs(s, q, k + n);
      }
    }
  }

  /** Prepending one character creates at most an occurrence at index 0. */
  lemma FreeCons(c: char, t: string, q: string)
    requires Free(t, q) && !Occurs([c] + t, q, 0)
    ensures Free([c] + t, q)
  {
    forall k: nat | 0 < k <= |[c] + t| ensures !Occurs([c] + t, q, k) {
      if k + |q| <= |t| + 1 {
        assert ([c] + t)[k..k + |q|] == t[k - 1..k - 1 + |q|];
        assert !Occurs(t, q, k - 1);
      }
    }
  }

  /** Prepending text no suffix of which can start `q` keeps `q` out. */
  lemma FreeAppend(x: string, y: string, q: string)
    requires |q| > 0 && Free(y, q) && NoPartial(x, q)
    ensures Free(x + y, q)
  {
    forall k: nat | k <= |x + y| ensures !Occurs(x + y, q, k) {
      if k + |q| <= |x + y| {
        if k < |x| {
          var a := x[k..];
          assert !Compatible(a, q);
          if |a| <= |q| {
            assert (x + y)[k..k + |q|][..|a|] == a;
          } else {
            assert (x + y)[k..k + |q|] == a[..|q|];
          }
        } else {
          assert (x + y)[k..k + |q|] == y[k - |x|..k - |x| + |q|];
          assert !Occurs(y, q, k - |x|);
        }
      }
    }
  }

  /** If the replaced text starts with `w`, and no suffix of `w` is compatible
      with the replacement, then the original already started with `w`. */
  lemma NoPartialTail(w: string, r: string)
    requires w != [] && NoPartial(w, r)
    ensures NoPartial(w[1..], r)
  {
    forall i | 0 <= i < |w[1..]| ensures !Compatible(w[1..][i..], r) {
      assert w[1..][i..] == w[i + 1..];
    }
  }

  lemma {:induction false} ReplaceAllPrefix(x: string, w: string, p: string, r: string)
    requires |p| > 0 && NoPartial(w, r)
    requires StartsWith(ReplaceAll(x, p, r), w)
    ensures StartsWith(x, w)
    decreases |w|
  {
    if w != [] && |x| >= |p| {
      var z := ReplaceAll(x, p, r);
      assert w[0..] == w;
      assert !Compatible(w, r);
      if x[..|p|] == p {
        assert false;
      } else {
        var rest := ReplaceAll(x[1..], p, r);
        assert StartsWith(rest, w[1..]) by {
          assert z == [x[0]] + rest by {
            assert x[0..|p|] == x[..|p|];
            ReplaceAllCopies(x, p, r);
          }
          assert rest[..|w| - 1] == z[1..|w|] == w[1..];
        }
        NoPartialTail(w, r);
        ReplaceAllPrefix(x[1..], w[1..], p, r);
        assert x[0] == w[0] by {
          assert z[0] == x[0];
        }
        StartsWithCons(x, w);
      }
    }
  }

  /** A prefix is its first character followed by a prefix of the tail. */
  lemma StartsWithCons(x: string, w: string)
    requires x != [] && w != [] && x[0] == w[0] && StartsWith(x[1..], w[1..])
    ensures StartsWith(x, w)
  {
    assert x[..|w|] == [x[0]] + x[1..][..|w| - 1];
    assert w == [w[0]] + w[1..];
  }

  /** Replacing `p` by `r` never introduces an occurrence of `q`, provided `r`
      cannot take part in one: `r` is followed by anything but contains no
      start of `q`, and no tail of `q` can be completed by the start of `r`.
      With `q == p` this says every occurrence of the pattern is gone. */
  lemma {:induction false} ReplaceAllKeepsFree(s: string, p: string, q: string, r: string)
    requires |p| > 0 && |q| > 0
    requires NoPartial(r, q) && NoPartial(q[1..], r)
    requires q == p || Free(s, q)
    ensures Free(ReplaceAll(s, p, r), q)
    decreases |s|
  {
    if |s| < |p| {
      if q == p {
        forall k: nat | Occurs(s, q, k) ensures false { }
      }
    } else if s[..|p|] == p {
      if q != p { FreeDrop(s, q, |p|); }
      ReplaceAllKeepsFree(s[|p|..], p, q, r);
      FreeAppend(r, ReplaceAll(s[|p|..], p, r), q);
    } else {
      if q != p { FreeTail(s, q); }
      ReplaceAllKeepsFree(s[1..], p, q, r);
      var rest := ReplaceAll(s[1..], p, r);
      assert !Occurs(s, q, 0);
      if StartsWith(rest, q[1..]) {
        ReplaceAllPrefix(s[1..], q[1..], p, r);
        assert s[..|q|] == [s[0]] + s[1..][..|q| - 1] == [s[0]] + q[1..];
        assert q == [q[0]] + q[1..];
        assert s[0] != q[0];
      } else if |q| <= |rest| + 1 {
        assert ([s[0]] + rest)[1..|q|] == rest[..|q| - 1];
      }
      FreeCons(s[0], rest, q);
    }
  }
}
