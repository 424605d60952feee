/** Cleaning of ids read from a sheet: trim, then delete tabs, line feeds and carriage returns. */
module KeyCleaning {

  /** unicode.IsSpace. */
  predicate IsSpace(c: char) {
    || '\t' <= c <= '\r' || c == ' '
    || c == '\U{0085}' || c == '\U{00A0}' || c == '\U{1680}' || '\U{2000}' <= c <= '\U{200a}'
    || c == '\U{2028}' || c == '\U{2029}' || c == '\U{202f}' || c == '\U{205f}' || c == '\U{3000}'
  }

  predicate AllSpace(s: string) { forall i :: 0 <= i < |s| ==> IsSpace(s[i]) }

  function TrimLeft(s: string): string {
    if s != "" && IsSpace(s[0]) then TrimLeft(s[1..]) else s
  }

  function TrimRight(s: string): string {
    if s != "" && IsSpace(s[|s| - 1]) then TrimRight(s[..|s| - 1]) else s
  }

  function TrimSpace(s: string): string { TrimRight(TrimLeft(s)) }

  /** strings.ReplaceAll(s, c, ""). */
  function Delete(s: string, c: char): string {
    if s == "" then "" else (if s[0] == c then "" else [s[0]]) + Delete(s[1..], c)
  }

  function Strip(s: string): string { Delete(Delete(Delete(s, '\t'), '\n'), '\r') }

  function CleanKey(s: string): string { Strip(TrimSpace(s)) }

  // ---------------------------------------------------------------- trimming

  /** No white space at either end. */
  predicate Tight(s: string) { s != "" ==> !IsSpace(s[0]) && !IsSpace(s[|s| - 1]) }

  lemma {:induction false} TrimLeftTight(s: string)
    ensures var t := TrimLeft(s); (t != "" ==> !IsSpace(t[0])) && |t| <= |s| && s[|s| - |t|..] == t
    ensures AllSpace(s[..|s| - |TrimLeft(s)|])
  {
    if s != "" && IsSpace(s[0]) {
      TrimLeftTight(s[1..]);
      var t := TrimLeft(s[1..]);
      assert s[1..][|s| - 1 - |t|..] == s[|s| - |t|..];
      assert s[..|s| - |t|] == [s[0]] + s[1..][..|s| - 1 - |t|];
    }
  }

  lemma {:induction false} TrimRightTight(s: string)
    ensures var t := TrimRight(s); (t != "" ==> !IsSpace(t[|t| - 1])) && t <= s && AllSpace(s[|t|..])
  {
    if s != "" && IsSpace(s[|s| - 1]) {
      TrimRightTight(s[..|s| - 1]);
      var t := TrimRight(s[..|s| - 1]);
      assert s[|t|..] == s[..|s| - 1][|t|..] + [s[|s| - 1]];
    }
  }

  lemma TrimTight(s: string)
    ensures Tight(TrimSpace(s))
  {
    TrimLeftTight(s);
    TrimRightTight(TrimLeft(s));
  }

  /** Trimming takes white space off both ends, all of it and nothing else. */
  lemma TrimSpelledOut(s: string) returns (pre: string, post: string)
    ensures s == pre + TrimSpace(s) + post && AllSpace(pre) && AllSpace(post)
    ensures Tight(TrimSpace(s))
  {
    var left := TrimLeft(s);
    var t := TrimRight(left);
    TrimTight(s);
    TrimLeftTight(s);
    TrimRightTight(left);
    pre, post := s[..|s| - |left|], left[|t|..];
    assert left == t + post && s == pre + left;
    assert pre + (t + post) == pre + t + post;
  }

  /** White space below code 128: tab to carriage return, and the blank. */
  lemma SpacesSpelledOut(c: char)
    requires c as int < 128
    ensures IsSpace(c) <==> c as int in {9, 10, 11, 12, 13, 32}
  {}

  lemma TightIsTrimmed(s: string)
    requires Tight(s)
    ensures TrimSpace(s) == s
  {}

  lemma {:induction false} TrimLeftSkips(pre: string, s: string)
    requires AllSpace(pre)
    ensures TrimLeft(pre + s) == TrimLeft(s)
  {
    if pre == "" {
      assert pre + s == s;
    } else {
      assert (pre + s)[1..] == pre[1..] + s;
      TrimLeftSkips(pre[1..], s);
    }
  }

  lemma {:induction false} TrimRightSkips(s: string, post: string)
    requires AllSpace(post)
    ensures TrimRight(s + post) == TrimRight(s)
    decreases |post|
  {
    if post == "" {
      assert s + post == s;
    } else {
      var n := |post| - 1;
      assert (s + post)[..|s + post| - 1] == s + post[..n];
      TrimRightSkips(s, post[..n]);
    }
  }

  lemma {:induction false} TrimLeftKeepsTail(s: string, post: string)
    requires AllSpace(post)
    ensures TrimRight(TrimLeft(s + post)) == TrimRight(TrimLeft(s))
  {
    if s == "" {
      assert s + post == post + "";
      TrimLeftSkips(post, "");
    } else if IsSpace(s[0]) {
      assert (s + post)[1..] == s[1..] + post;
      TrimLeftKeepsTail(s[1..], post);
    } else {
      TrimRightSkips(s, post);
    }
  }

  // ---------------------------------------------------------------- deleting

  lemma {:induction false} DeleteRemoves(s: string, c: char)
    ensures c !in Delete(s, c)
    ensures forall d :: d in Delete(s, c) ==> d in s
  {
    if s != "" {
      DeleteRemoves(s[1..], c);
    }
  }

  lemma {:induction false} DeleteNothing(s: string, c: char)
    requires c !in s
    ensures Delete(s, c) == s
  {
    if s != "" {
      DeleteNothing(s[1..], c);
      assert s == [s[0]] + s[1..];
    }
  }

  /** Deleting a white-space character from tight text leaves its ends alone. */
  lemma {:induction false} DeleteKeepsTight(s: string, c: char)
    requires Tight(s) && IsSpace(c)
    ensures Tight(Delete(s, c))
  {
    if s != "" {
      DeleteKeepsLast(s, c);
    }
  }

  lemma {:induction false} DeleteKeepsLast(s: string, c: char)
    requires s != "" && s[|s| - 1] != c
    ensures var t := Delete(s, c); t != "" && t[|t| - 1] == s[|s| - 1]
  {
    if |s| > 1 {
      DeleteKeepsLast(s[1..], c);
    }
  }

  // ---------------------------------------------------------------- the key

  lemma CleanKeyHasNone(s: string)
    ensures Tight(CleanKey(s))
    ensures '\t' !in CleanKey(s) && '\n' !in CleanKey(s) && '\r' !in CleanKey(s)
  {
    var t := TrimSpace(s);
    var a := Delete(t, '\t');
    var b := Delete(a, '\n');
    TrimTight(s);
    DeleteKeepsTight(t, '\t');
    DeleteKeepsTight(a, '\n');
    DeleteKeepsTight(b, '\r');
    DeleteRemoves(t, '\t');
    DeleteRemoves(a, '\n');
    DeleteRemoves(b, '\r');
  }

  /** A text without white space at its ends and without the three characters is its own key. */
  lemma CleanIsKept(s: string)
    requires Tight(s) && '\t' !in s && '\n' !in s && '\r' !in s
    ensures CleanKey(s) == s
  {
    TightIsTrimmed(s);
    DeleteNothing(s, '\t');
    DeleteNothing(s, '\n');
    DeleteNothing(s, '\r');
  }

  lemma CleanKeyIdempotent(s: string)
    ensures CleanKey(CleanKey(s)) == CleanKey(s)
  {
    CleanKeyHasNone(s);
    CleanIsKept(CleanKey(s));
  }

  /** White space around a cell does not change its key. */
  lemma PaddingIsInvisible(pre: string, s: string, post: string)
    requires AllSpace(pre) && AllSpace(post)
    ensures CleanKey(pre + s + post) == CleanKey(s)
  {
    assert pre + s + post == pre + (s + post);
    TrimLeftSkips(pre, s + post);
    TrimLeftKeepsTail(s, post);
  }

  // ---------------------------------------------------------------- characters that never count

  lemma {:induction false} DeleteJoins(s: string, t: string, c: char)
    ensures Delete(s + t, c) == Delete(s, c) + Delete(t, c)
  {
    if s == "" {
      assert s + t == t;
    } else {
      assert (s + t)[1..] == s[1..] + t;
      DeleteJoins(s[1..], t, c);
    }
  }

  lemma StripJoins(s: string, t: string)
    ensures Strip(s + t) == Strip(s) + Strip(t)
  {
    hide Delete;
    DeleteJoins(s, t, '\t');
    DeleteJoins(Delete(s, '\t'), Delete(t, '\t'), '\n');
    DeleteJoins(Delete(Delete(s, '\t'), '\n'), Delete(Delete(t, '\t'), '\n'), '\r');
  }

  /** One of the three characters that are deleted. */
  predicate Deleted(c: char) { c == '\t' || c == '\n' || c == '\r' }

  lemma StripOne(c: char)
    requires Deleted(c)
    ensures Strip([c]) == ""
  {
    DeleteOne(c, '\t');
    DeleteOne(c, '\n');
    DeleteOne(c, '\r');
  }

  lemma DeleteOne(c: char, d: char)
    ensures Delete([c], d) == if c == d then "" else [c]
  {
    assert [c][1..] == "" && Delete("", d) == "";
  }

  lemma {:induction false} TrimLeftStops(s: string, t: string)
    requires !AllSpace(s)
    ensures TrimLeft(s + t) == TrimLeft(s) + t
  {
    if IsSpace(s[0]) {
      assert (s + t)[1..] == s[1..] + t && s == [s[0]] + s[1..];
      TrimLeftStops(s[1..], t);
    }
  }

  lemma {:induction false} TrimRightStops(s: string, t: string)
    requires !AllSpace(t)
    ensures TrimRight(s + t) == s + TrimRight(t)
    decreases |t|
  {
    var n := |t| - 1;
    if IsSpace(t[n]) {
      assert (s + t)[..|s + t| - 1] == s + t[..n] && t == t[..n] + [t[n]];
      TrimRightStops(s, t[..n]);
    }
  }

  /** Text between two ends that are not all white space is not trimmed. */
  lemma TrimKeepsMiddle(u: string, x: string, v: string)
    requires !AllSpace(u) && !AllSpace(v)
    ensures TrimSpace(u + x + v) == TrimLeft(u) + x + TrimRight(v)
  {
    assert u + x + v == u + (x + v);
    TrimLeftStops(u, x + v);
    assert TrimLeft(u) + (x + v) == TrimLeft(u) + x + v;
    TrimRightStops(TrimLeft(u) + x, v);
  }

  /** A tab, line feed or carriage return anywhere in a cell does not change its key. */
  lemma InsertedIsInvisible(u: string, c: char, v: string)
    requires Deleted(c)
    ensures CleanKey(u + [c] + v) == CleanKey(u + v)
  {
    hide Strip, TrimLeft, TrimRight;
    if AllSpace(u) {
      TrimLeftSkips(u + [c], v);
      TrimLeftSkips(u, v);
    } else if AllSpace(v) {
      assert u + [c] + v == u + ([c] + v);
      TrimLeftKeepsTail(u, [c] + v);
      TrimLeftKeepsTail(u, v);
    } else {
      var a, b := TrimLeft(u), TrimRight(v);
      TrimKeepsMiddle(u, [c], v);
      TrimKeepsMiddle(u, "", v);
      assert u + "" + v == u + v && a + "" + b == a + b;
      StripJoins(a + [c], b);
      StripJoins(a, [c]);
      StripJoins(a, b);
      StripOne(c);
    }
  }
}
