/** What fishrambeta/src/parser.rs's text handling does, proved about module LatexParser:
    how a command name and a bracketed parameter are cut from the text, what
    cleanup_latex changes, and how latex_to_ir splits at the top level. */
module ParserFacts {
  import opened Wrappers
  import opened Expressions
  import opened ParserBase
  import opened OperatorScan
  import opened Lowering
  import opened LatexParser

  // ---------------------------------------------------------------------------
  // Commands and parameters

  /** After a backslash the command name runs up to the first of `{ ( [ ^ _` or to the
      end of the text; only empty text fails. */
  lemma {:induction false} CommandSplitSpec(s: seq<char>)
    ensures CommandSplit(s).Success? <==> s != []
    ensures CommandSplit(s).Success? ==>
      var (command, rest) := CommandSplit(s).value;
      command + rest == s &&
      (forall j :: 0 <= j < |command| ==> !StopsCommand(command[j])) &&
      (rest == [] || StopsCommand(rest[0]))
  {
    if s != [] {
      assert s[..CommandLength(s)] + s[CommandLength(s)..] == s;
    }
  }

  /** The depth get_first_parameter's loop has reached after pushing s[..k+1], where s
      is the text after the opening bracket. */
  function ParameterDepth(s: seq<char>, k: nat): int
    requires k < |s|
  {
    1 + DepthDifference(s[1..k + 1])
  }

  /** The loop stops at the first n > k at which the depth, counting s[1..n+1], drops to
      zero: its result is n exactly when that is where the depth first drops. */
  lemma {:induction false} ScanParameterSpec(s: seq<char>, k: nat, n: nat)
    requires k < |s| && ParameterDepth(s, k) > 0
    ensures ScanParameter(s, k, ParameterDepth(s, k)) == Success(n) <==>
      k < n < |s| && ParameterDepth(s, n) <= 0 && forall j :: k < j < n ==> ParameterDepth(s, j) > 0
    decreases |s| - k
  {
    var depth := ParameterDepth(s, k);
    if k + 1 < |s| {
      assert s[1..k + 2] == s[1..k + 1] + [s[k + 1]];
      DepthDifferenceAppend(s[1..k + 1], [s[k + 1]]);
      assert [s[k + 1]][..0] == [];
      assert ParameterDepth(s, k + 1) == depth + Delta(s[k + 1]);
      if ParameterDepth(s, k + 1) > 0 {
        ScanParameterSpec(s, k + 1, n);
      }
    }
  }

  /** The depth difference of parameter[1..j+1]. */
  function TailDepth(parameter: seq<char>, j: nat): int
    requires 1 <= j < |parameter|
  {
    DepthDifference(parameter[1..j + 1])
  }

  /** A parameter cut by get_first_parameter: after the opening character come the
      parameter and one closing bracket, then the rest. The parameter is not empty, and
      apart from its first character (which the loop never inspects) it is balanced
      and never closes more than it opens. Conversely any such parameter is the one cut. */
  lemma {:induction false} SplitFirstParameterSpec(latex: seq<char>, b: BracketType, parameter: seq<char>, rest: seq<char>)
    ensures SplitFirstParameter(latex) == Success((b, parameter, rest)) <==>
      |latex| > 0 && b == GetOpeningBracketType(latex[0]) && |parameter| > 0 &&
      |latex| == |parameter| + |rest| + 2 &&
      latex == [latex[0]] + parameter + [latex[|parameter| + 1]] + rest &&
      DepthDifference(parameter[1..] + [latex[|parameter| + 1]]) < 0 &&
      forall j :: 1 <= j < |parameter| ==> TailDepth(parameter, j) >= 0
  {
    var n := |parameter|;
    if SplitFirstParameter(latex) == Success((b, parameter, rest)) {
      assert latex == [latex[0]] + latex[1..n + 1] + [latex[n + 1]] + latex[n + 2..];
      ScanCutsAt(latex, parameter, rest);
    }
    if |latex| > 0 && n > 0 && |latex| == n + |rest| + 2 && latex == [latex[0]] + parameter + [latex[n + 1]] + rest {
      ScanCutsAt(latex, parameter, rest);
      assert latex[1..n + 1] == parameter && latex[n + 2..] == rest;
    }
  }

  /** For a text cut as an opening character, a parameter, one character and a rest,
      the scan stops after the parameter exactly when the parameter's depth conditions
      hold. */
  lemma {:induction false} ScanCutsAt(latex: seq<char>, parameter: seq<char>, rest: seq<char>)
    requires |latex| == |parameter| + |rest| + 2 && |parameter| > 0
    requires latex == [latex[0]] + parameter + [latex[|parameter| + 1]] + rest
    ensures ScanParameter(latex[1..], 0, 1) == Success(|parameter|) <==>
      DepthDifference(parameter[1..] + [latex[|parameter| + 1]]) < 0 &&
      forall j :: 1 <= j < |parameter| ==> TailDepth(parameter, j) >= 0
  {
    var s := latex[1..];
    var n := |parameter|;
    assert s[1..1] == [];
    ScanParameterSpec(s, 0, n);
    assert s == parameter + [latex[n + 1]] + rest;
    assert s[1..n + 1] == parameter[1..] + [latex[n + 1]];
    forall j | 1 <= j < n
      ensures ParameterDepth(s, j) == 1 + TailDepth(parameter, j)
    {
      assert s[1..j + 1] == parameter[1..j + 1];
    }
  }


  /** The character after the parameter closes a bracket, and the parameter's tail is
      balanced. */
  lemma {:induction false} SplitFirstParameterCloses(latex: seq<char>)
    requires SplitFirstParameter(latex).Success?
    ensures var (b, parameter, rest) := SplitFirstParameter(latex).value;
      IsClosingBracket(latex[|parameter| + 1]) && DepthDifference(parameter[1..]) == 0
  {
    var (b, parameter, rest) := SplitFirstParameter(latex).value;
    SplitFirstParameterSpec(latex, b, parameter, rest);
    var c := latex[|parameter| + 1];
    DepthDifferenceAppend(parameter[1..], [c]);
    assert [c][..0] == [];
    var tail := parameter[1..];
    if |parameter| > 1 {
      assert tail == parameter[1..|parameter| - 1 + 1];
      assert TailDepth(parameter, |parameter| - 1) >= 0;
    }
    BracketTypeFacts(NoBracket, c);
  }

  /** The first character after the bracket is taken as it is, even when it opens a
      bracket: `{{a}}` yields the parameter `{a` and leaves `}`. */
  lemma {:induction false} NestedParameterQuirk()
    ensures SplitFirstParameter("{{a}}") == Success((Curly, "{a", "}"))
  {
    var latex := "{{a}}";
    var parameter := "{a";
    assert latex == [latex[0]] + parameter + [latex[3]] + "}";
    assert parameter[1..] + [latex[3]] == "a}";
    assert DepthDifference("a}") == DepthDifference("a") + Delta('}') by {
      assert "a}"[..1] == "a";
    }
    assert DepthDifference("a") == 0 by {
      assert "a"[..0] == [];
    }
    assert parameter[1..2] == "a";
    SplitFirstParameterSpec(latex, Curly, parameter, "}");
  }

  // ---------------------------------------------------------------------------
  // cleanup_latex

  /** Removing blanks leaves none, and keeps text without blanks as it is. */
  lemma {:induction false} RemoveSpacesSpec(s: seq<char>)
    ensures ' ' !in RemoveSpaces(s)
    ensures |RemoveSpaces(s)| <= |s|
    ensures ' ' !in s ==> RemoveSpaces(s) == s
  {
    if s != [] {
      RemoveSpacesSpec(s[1..]);
      if ' ' !in s {
        assert ' ' !in s[1..];
        assert [s[0]] + s[1..] == s;
      }
    }
  }

  /** Blanks are not brackets. */
  lemma {:induction false} RemoveSpacesDepth(s: seq<char>)
    ensures DepthDifference(RemoveSpaces(s)) == DepthDifference(s)
  {
    if s != [] {
      RemoveSpacesDepth(s[1..]);
      var head := if s[0] == ' ' then [] else [s[0]];
      assert RemoveSpaces(s) == head + RemoveSpaces(s[1..]);
      DepthDifferenceAppend(head, RemoveSpaces(s[1..]));
      DepthDifferenceAppend([s[0]], s[1..]);
      assert [s[0]] + s[1..] == s;
      assert [s[0]][..0] == [];
      assert DepthDifference([s[0]]) == Delta(s[0]);
      assert DepthDifference(head) == Delta(s[0]) by {
        if s[0] == ' ' {
          assert head == [];
        }
      }
    }
  }

  /** Replacing `\cdot` by `*` keeps text without a backslash and keeps the bracket
      depth. */
  lemma {:induction false} ReplaceCdotSpec(s: seq<char>)
    ensures |ReplaceCdot(s)| <= |s|
    ensures '\\' !in s ==> ReplaceCdot(s) == s
    ensures DepthDifference(ReplaceCdot(s)) == DepthDifference(s)
  {
    ReplaceCdotShortens(s);
    ReplaceCdotDepth(s);
  }

  lemma {:induction false} ReplaceCdotShortens(s: seq<char>)
    ensures |ReplaceCdot(s)| <= |s|
    ensures '\\' !in s ==> ReplaceCdot(s) == s
    decreases |s|
  {
    if |s| >= 5 && s[..5] == Cdot {
      ReplaceCdotShortens(s[5..]);
      assert s[0] == '\\';
    } else if s != [] {
      ReplaceCdotShortens(s[1..]);
      assert [s[0]] + s[1..] == s;
      if '\\' !in s {
        assert '\\' !in s[1..];
      }
    }
  }

  lemma {:induction false} ReplaceCdotDepth(s: seq<char>)
    ensures DepthDifference(ReplaceCdot(s)) == DepthDifference(s)
    decreases |s|
  {
    if |s| >= 5 && s[..5] == Cdot {
      ReplaceCdotDepth(s[5..]);
      DepthDifferenceAppend("*", ReplaceCdot(s[5..]));
      DepthDifferenceAppend(s[..5], s[5..]);
      assert s[..5] + s[5..] == s;
      assert "*"[..0] == [];
      assert DepthDifference(Cdot) == 0 by {
        DepthDifferenceBounds(Cdot);
      }
    } else if s != [] {
      ReplaceCdotDepth(s[1..]);
      DepthDifferenceAppend([s[0]], ReplaceCdot(s[1..]));
      DepthDifferenceAppend([s[0]], s[1..]);
      assert [s[0]] + s[1..] == s;
    }
  }


  /** An occurrence of text without '*' in the replaced text stands in the same place
      in the original. */
  lemma {:induction false} ReplaceCdotKeepsPrefix(u: seq<char>, w: seq<char>)
    requires '*' !in w && |w| <= |ReplaceCdot(u)| && ReplaceCdot(u)[..|w|] == w
    ensures |w| <= |u| && u[..|w|] == w
    decreases |w|
  {
    if w != [] {
      assert ReplaceCdot(u)[0] == w[0];
      assert !(|u| >= 5 && u[..5] == Cdot);
      assert u != [];
      assert ReplaceCdot(u) == [u[0]] + ReplaceCdot(u[1..]);
      assert ReplaceCdot(u[1..])[..|w| - 1] == w[1..];
      ReplaceCdotKeepsPrefix(u[1..], w[1..]);
      assert u[..|w|] == [u[0]] + u[1..][..|w| - 1];
    }
  }

  /** `\cdot` after text without a backslash becomes `*` in place. */
  lemma {:induction false} ReplaceCdotAfterPlain(l: seq<char>, r: seq<char>)
    requires '\\' !in l
    ensures ReplaceCdot(l + Cdot + r) == l + "*" + ReplaceCdot(r)
    decreases |l|
  {
    var s := l + Cdot + r;
    if l == [] {
      assert s[..5] == Cdot && s[5..] == r;
    } else {
      assert s[..5] != Cdot by {
        assert s[0] == l[0] && Cdot[0] == '\\';
      }
      assert s[1..] == l[1..] + Cdot + r;
      ReplaceCdotAfterPlain(l[1..], r);
      assert l == [l[0]] + l[1..];
    }
  }

  lemma {:induction false} RemoveSpacesAppend(a: seq<char>, b: seq<char>)
    ensures RemoveSpaces(a + b) == RemoveSpaces(a) + RemoveSpaces(b)
  {
    if a == [] {
      assert a + b == b;
    } else {
      assert (a + b)[0] == a[0] && (a + b)[1..] == a[1..] + b;
      RemoveSpacesAppend(a[1..], b);
    }
  }

  predicate CdotAt(t: seq<char>, i: nat) {
    i + 5 <= |t| && t[i..i + 5] == Cdot
  }

  /** No `\cdot` survives the replacement. */
  lemma {:induction false} ReplaceCdotLeavesNone(s: seq<char>)
    ensures forall i: nat :: !CdotAt(ReplaceCdot(s), i)
    decreases |s|
  {
    var t := ReplaceCdot(s);
    if |s| >= 5 && s[..5] == Cdot {
      ReplaceCdotLeavesNone(s[5..]);
      forall i: nat
        ensures !CdotAt(t, i)
      {
        if i > 0 && i + 5 <= |t| {
          assert t[i..i + 5] == ReplaceCdot(s[5..])[i - 1..i + 4];
          assert !CdotAt(ReplaceCdot(s[5..]), i - 1);
        }
      }
    } else if s != [] {
      var u := s[1..];
      ReplaceCdotLeavesNone(u);
      assert t == [s[0]] + ReplaceCdot(u);
      forall i: nat
        ensures !CdotAt(t, i)
      {
        if i > 0 && i + 5 <= |t| {
          assert t[i..i + 5] == ReplaceCdot(u)[i - 1..i + 4];
          assert !CdotAt(ReplaceCdot(u), i - 1);
        } else if i == 0 && CdotAt(t, 0) {
          assert t[1..5] == ReplaceCdot(u)[..4];
          assert ReplaceCdot(u)[..4] == "cdot";
          ReplaceCdotKeepsPrefix(u, "cdot");
          assert false;
        }
      }
    }
  }

  /** cleanup_latex removes every blank, keeps the bracket depth, and leaves text
      without backslashes or blanks as it is; removing blanks after the replacement can
      form a new `\cdot`, so cleaning twice differs from cleaning once. */
  lemma {:induction false} CleanupSpec(s: seq<char>)
    ensures ' ' !in CleanupLatex(s)
    ensures |CleanupLatex(s)| <= |s|
    ensures DepthDifference(CleanupLatex(s)) == DepthDifference(s)
    ensures '\\' !in s && ' ' !in s ==> CleanupLatex(s) == s
  {
    ReplaceCdotSpec(s);
    RemoveSpacesSpec(ReplaceCdot(s));
    RemoveSpacesDepth(ReplaceCdot(s));
  }

  lemma {:induction false} CleanupNotIdempotent()
    ensures CleanupLatex("\\cd ot") == "\\cdot"
    ensures CleanupLatex("\\cdot") == "*"
  {
    SpacedCdotKept();
    SpacedCdotJoined();
    CdotReplaced();
  }

  /** `\cd ot` holds no `\cdot` to replace, */
  lemma {:induction false} SpacedCdotKept()
    ensures ReplaceCdot("\\cd ot") == "\\cd ot"
  {
    var s := "\\cd ot";
    assert s[..5] != Cdot by { assert s[3] == ' ' && Cdot[3] == 'o'; }
    var t := s[1..];
    assert t == "cd ot";
    assert '\\' !in t;
    ReplaceCdotSpec(t);
    assert s == [s[0]] + t;
  }

  /** but removing its space makes one, */
  lemma {:induction false} SpacedCdotJoined()
    ensures RemoveSpaces("\\cd ot") == "\\cdot"
  {
    assert "\\cd ot" == "\\cd" + " ot";
    RemoveSpacesAppend("\\cd", " ot");
    RemoveSpacesSpec("\\cd");
    assert " ot"[1..] == "ot";
    RemoveSpacesSpec("ot");
  }

  /** which a second cleanup replaces. */
  lemma {:induction false} CdotReplaced()
    ensures CleanupLatex("\\cdot") == "*"
  {
    ReplaceCdotAfterPlain([], []);
    assert [] + Cdot + [] == "\\cdot";
    RemoveSpacesSpec("*");
  }


}
