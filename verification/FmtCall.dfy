/** What the matcher calls an unwrapped call, told from the text of one: the macro name, blanks, a
    group with any groups nested in it, blanks and the tail. */
module FmtCall {
  import opened FmtIdiom

  /** The inside of a parenthesised group: text, and groups nested in it. */
  datatype Body = Flat(text: string) | Group(text: string, inner: Body, more: Body)

  function BodyText(b: Body): string {
    match b
    case Flat(t) => t
    case Group(t, inner, more) => t + ("(" + (BodyText(inner) + (")" + BodyText(more))))
  }

  /** The texts between the parentheses hold none. */
  predicate Balanced(b: Body) {
    '(' !in b.text && ')' !in b.text && (b.Group? ==> Balanced(b.inner) && Balanced(b.more))
  }

  lemma {:induction false} DepthConcat(a: string, b: string)
    ensures Depth(a + b) == Depth(a) + Depth(b)
  {
    if b == "" {
      assert a + b == a;
    } else {
      var front := b[..|b| - 1];
      assert (a + b)[..|a + b| - 1] == a + front;
      DepthConcat(a, front);
    }
  }

  /** The running count never falls below `-base`. */
  ghost predicate StaysAbove(s: string, base: int) { forall k :: 0 <= k <= |s| ==> Depth(s[..k]) >= -base }

  lemma AboveConcat(a: string, b: string, base: int)
    requires StaysAbove(a, base) && StaysAbove(b, base + Depth(a))
    ensures StaysAbove(a + b, base)
  {
    forall k | 0 <= k <= |a + b| ensures Depth((a + b)[..k]) >= -base {
      if k <= |a| {
        assert (a + b)[..k] == a[..k];
      } else {
        assert (a + b)[..k] == a + b[..k - |a|];
        DepthConcat(a, b[..k - |a|]);
      }
    }
  }

  lemma {:induction false} FlatText(t: string)
    requires '(' !in t && ')' !in t
    ensures Depth(t) == 0 && StaysAbove(t, 0)
  {
    if t == "" {
    } else {
      var front := t[..|t| - 1];
      FlatText(front);
      forall k | 0 <= k <= |t| ensures Depth(t[..k]) >= 0 {
        if k < |t| { assert t[..k] == front[..k]; } else { assert t[..k] == t; }
      }
    }
  }

  lemma OneParen(c: char)
    requires c == '(' || c == ')'
    ensures Depth([c]) == (if c == '(' then 1 else -1) && StaysAbove([c], if c == '(' then 0 else 1)
  {
    assert [c][..0] == "" && [c][..1] == [c];
    assert Depth("") == 0;
  }

  lemma {:induction false} BodyIsBalanced(b: Body)
    requires Balanced(b)
    ensures Depth(BodyText(b)) == 0 && StaysAbove(BodyText(b), 0)
    decreases b
  {
    hide Depth, StaysAbove;
    FlatText(b.text);
    match b
    case Flat(_) =>
    case Group(t, inner, more) =>
      var i, m := BodyText(inner), BodyText(more);
      BodyIsBalanced(inner);
      BodyIsBalanced(more);
      Enclosed(i, m);
      DepthConcat(t, "(" + (i + (")" + m)));
      AboveConcat(t, "(" + (i + (")" + m)), 0);
  }

  lemma Enclosed(i: string, m: string)
    requires Depth(i) == 0 && StaysAbove(i, 0) && Depth(m) == 0 && StaysAbove(m, 0)
    ensures Depth("(" + (i + (")" + m))) == 0 && StaysAbove("(" + (i + (")" + m)), 0)
  {
    OneParen('(');
    OneParen(')');
    DepthConcat(")", m);
    DepthConcat(i, ")" + m);
    DepthConcat("(", i + (")" + m));
    Raise(i);
    AboveConcat(")", m, 1);
    AboveConcat(i, ")" + m, 1);
    AboveConcat("(", i + (")" + m), 0);
  }

  lemma Raise(s: string)
    requires StaysAbove(s, 0)
    ensures StaysAbove(s, 1)
  {}

  /** A group closes at the parenthesis that matches its first one, whatever is nested in it. */
  lemma GroupCloses(before: string, b: Body, after: string)
    requires Balanced(b)
    ensures Closes(before + ("(" + (BodyText(b) + (")" + after))), |before|, |before| + |BodyText(b)| + 2)
  {
    hide Depth, BodyText, StaysAbove;
    var body := BodyText(b);
    var code := before + ("(" + (body + (")" + after)));
    var open, end := |before|, |before| + |body| + 2;
    BodyIsBalanced(b);
    GroupDepth(body);
    forall e | open < e < end ensures Depth(code[open..e]) > 0 {
      GroupCut(before, body, after, e);
      OpenDepth(body, e - open - 1);
    }
    GroupCut(before, body, after, end);
  }

  lemma GroupDepth(body: string)
    requires Depth(body) == 0
    ensures Depth("(" + (body + ")")) == 0
  {
    OneParen('(');
    OneParen(')');
    DepthConcat(body, ")");
    DepthConcat("(", body + ")");
  }

  lemma OpenDepth(body: string, k: nat)
    requires StaysAbove(body, 0) && k <= |body|
    ensures Depth("(" + body[..k]) > 0
  {
    OneParen('(');
    DepthConcat("(", body[..k]);
    assert Depth(body[..k]) >= 0;
  }

  /** The code from the parenthesis on. */
  lemma GroupCut(before: string, body: string, after: string, e: nat)
    requires |before| < e <= |before| + |body| + 2
    ensures (before + ("(" + (body + (")" + after))))[|before|..e]
         == if e < |before| + |body| + 2 then "(" + body[..e - |before| - 1] else "(" + (body + ")")
  {}

  /** Blanks only. */
  predicate Blank(u: Unicode, s: string) { forall k :: 0 <= k < |s| ==> u.ws(s[k]) }

  /** A call as it stands in the code. */
  function CallText(name: string, w: string, b: Body, x: string, tail: Tail): string {
    Needle(name) + (w + ("(" + (BodyText(b) + (")" + (x + TailText(tail))))))
  }

  lemma BlankRun(u: Unicode, a: string, w: string, rest: string)
    requires Blank(u, w) && rest != "" && !u.ws(rest[0])
    ensures BlankUpTo(u, a + (w + rest), |a|, |a| + |w|)
  {
    var code := a + (w + rest);
    assert forall k :: |a| <= k < |a| + |w| ==> code[k] == w[k - |a|];
    assert code[|a| + |w|] == rest[0];
  }

  /** The code cut at each of the parts of the call. */
  lemma Cuts(before: string, n: string, w: string, body: string, x: string, t: string, after: string)
    ensures var code := before + ((n + (w + ("(" + (body + (")" + (x + t)))))) + after);
            && code == before + (n + (w + ("(" + (body + (")" + (x + (t + after)))))))
            && code == (before + n) + (w + ("(" + (body + (")" + (x + (t + after))))))
            && code == (before + n + w) + ("(" + (body + (")" + (x + (t + after)))))
            && code == (before + n + w + ("(" + (body + ")"))) + (x + (t + after))
            && code == (before + n + w + ("(" + (body + ")")) + x) + (t + after)
  {}

  /** A call with any blanks and any arguments, unwrapped or expected right behind it, is found where
      its name stands alone. */
  lemma CallIsFound(u: Unicode, before: string, name: string, w: string, b: Body, x: string, tail: Tail, after: string)
    requires u.Valid() && Balanced(b) && Blank(u, w) && Blank(u, x)
    requires before == "" || !(u.alnum(before[|before| - 1]) || before[|before| - 1] == '_')
    ensures UnwrappedCall(u, before + (CallText(name, w, b, x, tail) + after), name, |before|, tail)
  {
    hide Depth, BodyText, Needle, TailText, BlankUpTo, Closes, WholeToken, StartsAt, Blank;
    var n, body, t := Needle(name), BodyText(b), TailText(tail);
    var code := before + (CallText(name, w, b, x, tail) + after);
    var end := x + (t + after);
    Cuts(before, n, w, body, x, t, after);
    NameStandsAlone(u, before, name, w + ("(" + (body + (")" + end))));
    BlankRun(u, before + n, w, "(" + (body + (")" + end)));
    GroupCloses(before + n + w, b, end);
    TailStarts(tail);
    BlankRun(u, before + n + w + ("(" + (body + ")")), x, t + after);
    TailStands(code, before + n + w + ("(" + (body + ")")) + x, tail, after, |before + n + w| + |body| + 2 + |x|);
    assert HasParts(u, code, name, |before|, |before + n + w|, |before + n + w| + |body| + 2,
                    |before + n + w| + |body| + 2 + |x|, tail);
  }

  lemma TailStarts(tail: Tail)
    ensures TailText(tail) != "" && TailText(tail)[0] == '.'
  {}

  lemma TailStands(code: string, front: string, tail: Tail, after: string, at: nat)
    requires code == front + (TailText(tail) + after) && at == |front|
    ensures StartsAt(code, at, TailText(tail)) && at < |code| && code[at] == '.'
  {
    assert code[at..at + |TailText(tail)|] == TailText(tail);
    assert code[at] == TailText(tail)[0];
  }
}
