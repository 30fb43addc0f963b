/**
 * Cleanup of a completion response before it is validated (app.py line 170):
 * every match of the regular expression "```python\n|```" is deleted, the
 * scan going left to right and trying the longer alternative first, and the
 * result is stripped of surrounding whitespace.
 */
module Fences {
  import opened Text

  const Fence := "```"
  const PythonFence := "```python\n"

  /** Three backticks at the front of `s`. */
  predicate OpensFence(s: string) {
    |s| >= |Fence| && s[0] == '`' && s[1] == '`' && s[2] == '`'
  }

  /** "```python" and a line break at the front of `s`: the alternative the regular expression tries first. */
  predicate OpensPythonFence(s: string) {
    && |s| >= |PythonFence| && OpensFence(s)
    && s[3] == 'p' && s[4] == 'y' && s[5] == 't' && s[6] == 'h' && s[7] == 'o' && s[8] == 'n' && s[9] == '\n'
  }

  /** `s` contains three consecutive backticks somewhere. */
  predicate HasFence(s: string)
    decreases |s|
  {
    OpensFence(s) || (|s| > |Fence| && HasFence(s[1..]))
  }

  /** `re.sub(r'```python\n|```', '', s)`. */
  function RemoveFences(s: string): (r: string)
    ensures |r| <= |s|
    ensures |s| > 0 && s[0] != '`' ==> |r| > 0 && r[0] == s[0]
    decreases |s|
  {
    if OpensPythonFence(s) then RemoveFences(s[|PythonFence|..])
    else if OpensFence(s) then RemoveFences(s[|Fence|..])
    else if |s| == 0 then []
    else [s[0]] + RemoveFences(s[1..])
  }

  /**
   * The whole cleanup expression of line 170. The cleaned response contains
   * no three consecutive backticks (so neither fence form survives) and has
   * no whitespace at either end.
   */
  function CleanFences(s: string): (r: string)
    ensures !HasFence(r)
    ensures Trimmed(r)
    ensures |r| <= |s|
  {
    RemoveFencesLeavesNone(s);
    StripKeepsNoFence(RemoveFences(s));
    Strip(RemoveFences(s))
  }

  /** Where no fence starts, the first character is kept. */
  lemma RemoveFencesKeep(s: string)
    requires |s| > 0 && !OpensFence(s)
    ensures RemoveFences(s) == [s[0]] + RemoveFences(s[1..])
  {
  }

  /** A backtick that starts no fence is kept, and does not start a fence in the result either. */
  lemma {:induction false} KeptBacktick(s: string)
    requires |s| > 0 && s[0] == '`' && !OpensFence(s)
    ensures RemoveFences(s) == [s[0]] + RemoveFences(s[1..])
    ensures !OpensFence(RemoveFences(s))
  {
    RemoveFencesKeep(s);
    var t := s[1..];
    if |t| > 0 && t[0] == '`' {
      // the second backtick cannot start a fence: the third character is not one
      RemoveFencesKeep(t);
      var u := t[1..];
      if |u| > 0 {
        assert u[0] == s[2];
      }
    }
  }

  /** Deletion never leaves a fence behind, even where deleted text closes a gap. */
  lemma {:induction false} RemoveFencesLeavesNone(s: string)
    ensures !HasFence(RemoveFences(s))
    decreases |s|
  {
    if OpensPythonFence(s) {
      RemoveFencesLeavesNone(s[|PythonFence|..]);
    } else if OpensFence(s) {
      RemoveFencesLeavesNone(s[|Fence|..]);
    } else if |s| > 0 {
      var r := RemoveFences(s);
      RemoveFencesLeavesNone(s[1..]);
      RemoveFencesKeep(s);
      assert r[1..] == RemoveFences(s[1..]);
      if s[0] == '`' {
        KeptBacktick(s);
      }
    }
  }

  /** A fence in a slice is a fence in the whole string. */
  lemma {:induction false} FenceInSlice(s: string, a: nat, b: nat)
    requires a <= b <= |s| && HasFence(s[a..b])
    ensures HasFence(s)
    decreases |s|, b - a
  {
    var t := s[a..b];
    if OpensFence(t) {
      if a == 0 {
        assert s[0] == t[0] && s[1] == t[1] && s[2] == t[2];
      } else {
        assert s[1..][a - 1..b - 1] == t;
        FenceInSlice(s[1..], a - 1, b - 1);
      }
    } else {
      assert s[a + 1..b] == t[1..];
      FenceInSlice(s, a + 1, b);
    }
  }

  /** Text without fences passes through the deletion unchanged. */
  lemma {:induction false} RemoveFencesNoFence(s: string)
    requires !HasFence(s)
    ensures RemoveFences(s) == s
    decreases |s|
  {
    if |s| > 0 {
      assert !HasFence(s[1..]);
      RemoveFencesNoFence(s[1..]);
      RemoveFencesKeep(s);
      assert s == [s[0]] + s[1..];
    }
  }

  /** Stripping whitespace cannot create a fence. */
  lemma StripKeepsNoFence(d: string)
    requires !HasFence(d)
    ensures !HasFence(Strip(d))
  {
    var a, b := StripIsInfix(d);
    if HasFence(d[a..b]) {
      FenceInSlice(d, a, b);
    }
  }

  /** Text with no fence and no surrounding whitespace is left unchanged. */
  lemma CleanFencesIdentity(s: string)
    requires !HasFence(s) && Trimmed(s)
    ensures CleanFences(s) == s
  {
    RemoveFencesNoFence(s);
    StripTrimmed(s);
  }

  /** Cleaning is idempotent. */
  lemma CleanFencesIdempotent(s: string)
    ensures CleanFences(CleanFences(s)) == CleanFences(s)
  {
    CleanFencesIdentity(CleanFences(s));
  }

  /** Appending a character other than a backtick creates no fence. */
  lemma {:induction false} NoFenceAppend(a: string, c: char)
    requires !HasFence(a) && c != '`'
    ensures !HasFence(a + [c])
    decreases |a|
  {
    var s := a + [c];
    if |a| > 0 {
      assert s[1..] == a[1..] + [c];
      NoFenceAppend(a[1..], c);
      if |a| >= 3 {
        assert s[0] == a[0] && s[1] == a[1] && s[2] == a[2];
      } else if |a| == 2 {
        assert s[2] == c;
      }
    }
  }

  /** A closing fence after fence-free text that does not end in a backtick is deleted. */
  lemma {:induction false} RemoveClosingFence(x: string)
    requires !HasFence(x) && (|x| == 0 || x[|x| - 1] != '`')
    ensures RemoveFences(x + Fence) == x
    decreases |x|
  {
    var s := x + Fence;
    if |x| == 0 {
      assert s == Fence;
      assert s[|Fence|..] == [];
    } else {
      assert !OpensFence(s) by {
        if |x| >= 3 {
          assert s[0] == x[0] && s[1] == x[1] && s[2] == x[2];
        } else {
          assert s[|x| - 1] == x[|x| - 1];
        }
      }
      RemoveFencesKeep(s);
      assert s[1..] == x[1..] + Fence;
      RemoveClosingFence(x[1..]);
      assert x == [x[0]] + x[1..];
    }
  }

  /**
   * Text before the first fence is kept as it is, and the deletion goes on
   * from the fence: together with the two fence cases of `RemoveFences`
   * this fixes the result on every input.
   */
  lemma {:induction false} RemoveFencesPrefix(x: string, y: string)
    requires !HasFence(x) && (|x| == 0 || x[|x| - 1] != '`') && OpensFence(y)
    ensures RemoveFences(x + y) == x + RemoveFences(y)
    decreases |x|
  {
    var s := x + y;
    if |x| == 0 {
      assert s == y;
    } else {
      var r := RemoveFences(y);
      assert RemoveFences(s) == [x[0]] + RemoveFences(s[1..]) by {
        assert !OpensFence(s) by {
          if |x| >= 3 {
            assert s[0] == x[0] && s[1] == x[1] && s[2] == x[2];
          } else {
            assert s[|x| - 1] == x[|x| - 1];
          }
        }
        RemoveFencesKeep(s);
      }
      assert RemoveFences(s[1..]) == x[1..] + r by {
        assert s[1..] == x[1..] + y;
        assert !HasFence(x[1..]);
        RemoveFencesPrefix(x[1..], y);
      }
      ConsAppend(x, r);
    }
  }

  /** A concrete case: text on both sides of a fence is kept, in order. */
  lemma RemoveFencesBetween()
    ensures RemoveFences("a```b") == "ab"
  {
    var y := "```b";
    assert OpensFence(y);
    RemoveFencesPrefix("a", y);
    assert "a" + y == "a```b";
    assert y[|Fence|..] == "b";
    assert !HasFence("b");
    RemoveFencesNoFence("b");
  }

  /** An opening python fence is deleted whatever follows it. */
  lemma RemoveOpeningFence(y: string)
    ensures RemoveFences(PythonFence + y) == RemoveFences(y)
  {
    var s := PythonFence + y;
    assert OpensPythonFence(s) by {
      assert forall k :: 0 <= k < |PythonFence| ==> s[k] == PythonFence[k];
    }
    assert s[|PythonFence|..] == y;
  }

  /** A trimmed string followed by one line break strips back to itself. */
  lemma StripLineBreak(code: string)
    requires Trimmed(code)
    ensures Strip(code + "\n") == code
  {
    var x := code + "\n";
    assert x[|x| - 1] == '\n';
    if |code| > 0 {
      assert x[0] == code[0] && x[|code| - 1] == code[|code| - 1];
      assert DropTrailing(x, 0, |x|) == DropTrailing(x, 0, |code|);
    } else {
      assert SkipSpaces(x, 0) == SkipSpaces(x, 1);
    }
    assert x[..|code|] == code;
  }

  /**
   * The reply shape the model is told not to produce but often does: an
   * opening python fence, the code, a line break and a closing fence. Clean
   * code inside it comes out exactly.
   */
  lemma FencedReplyYieldsCode(code: string)
    requires !HasFence(code) && Trimmed(code)
    ensures CleanFences(PythonFence + code + "\n" + Fence) == code
  {
    var x := code + "\n";
    assert RemoveFences(PythonFence + code + "\n" + Fence) == RemoveFences(x + Fence) by {
      assert PythonFence + code + "\n" + Fence == PythonFence + (x + Fence);
      RemoveOpeningFence(x + Fence);
    }
    assert RemoveFences(x + Fence) == x by {
      NoFenceAppend(code, '\n');
      RemoveClosingFence(x);
    }
    StripLineBreak(code);
  }
}
