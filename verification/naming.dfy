/**
 * Where a generated parser is written (app.py lines 25-29 and 184-186): the
 * file name is the snake-case form of the class name plus ".py", and the
 * sub-directory is the lower-cased first letter of the class name, or "_"
 * when that character is not a letter.
 */
module Naming {
  import opened Text

  /** End of the run of lower-case letters that starts at `i`. */
  function LowerRunEnd(s: string, i: nat): (j: nat)
    requires i <= |s|
    ensures i <= j <= |s|
    ensures forall k :: i <= k < j ==> IsLower(s[k])
    ensures j < |s| ==> !IsLower(s[j])
    decreases |s| - i
  {
    if i < |s| && IsLower(s[i]) then LowerRunEnd(s, i + 1) else i
  }

  /**
   * `re.sub('(.)([A-Z][a-z]+)', r'\1_\2', s)`: before every capitalised word
   * that follows some character other than a line break, insert '_'. The
   * match takes the whole run of lower-case letters, and the scan resumes
   * after it.
   */
  function SplitCapitalized(s: string): (r: string)
    ensures |s| == 0 ==> r == []
    ensures |s| > 0 ==> |r| > 0 && r[0] == s[0]
    decreases |s|
  {
    if |s| >= 3 && s[0] != '\n' && IsUpper(s[1]) && IsLower(s[2]) then
      var j := LowerRunEnd(s, 3);
      [s[0], '_'] + s[1..j] + SplitCapitalized(s[j..])
    else if |s| == 0 then []
    else [s[0]] + SplitCapitalized(s[1..])
  }

  /**
   * `re.sub('([a-z0-9])([A-Z])', r'\1_\2', s)`: insert '_' between a
   * lower-case letter or digit and the capital that follows it.
   */
  function SplitLowerUpper(s: string): (r: string)
    ensures |s| == 0 ==> r == []
    ensures |s| > 0 ==> |r| > 0 && r[0] == s[0]
    decreases |s|
  {
    if |s| >= 2 && (IsLower(s[0]) || IsDigit(s[0])) && IsUpper(s[1]) then
      [s[0], '_', s[1]] + SplitLowerUpper(s[2..])
    else if |s| == 0 then []
    else [s[0]] + SplitLowerUpper(s[1..])
  }

  /**
   * `to_snake_case`. Its last step, `replace('_parser', '_parser')`, replaces
   * a string by itself and so is left out.
   */
  function ToSnakeCase(name: string): (r: string)
    ensures |r| >= |name|
    ensures |name| == 0 <==> |r| == 0
    ensures |name| > 0 ==> r[0] == LowerChar(name[0])
  {
    SnakeCaseInsertsUnderscores(name);
    Lower(SplitLowerUpper(SplitCapitalized(name)))
  }

  /**
   * `t` is `s` with zero or more '_' characters inserted anywhere: deleting
   * the right underscores from `t` gives back `s`.
   */
  predicate Underscored(s: string, t: string)
    decreases |t|
  {
    if |t| == 0 then |s| == 0
    else
      || (t[0] == '_' && Underscored(s, t[1..]))
      || (|s| > 0 && s[0] == t[0] && Underscored(s[1..], t[1..]))
  }

  lemma {:induction false} UnderscoredLength(s: string, t: string)
    requires Underscored(s, t)
    ensures |s| <= |t|
    decreases |t|
  {
    if |t| > 0 {
      if t[0] == '_' && Underscored(s, t[1..]) {
        UnderscoredLength(s, t[1..]);
      } else {
        UnderscoredLength(s[1..], t[1..]);
      }
    }
  }

  lemma {:induction false} UnderscoredPrefix(p: string, s: string, t: string)
    requires Underscored(s, t)
    ensures Underscored(p + s, p + t)
    decreases |p|
  {
    if |p| > 0 {
      UnderscoredPrefix(p[1..], s, t);
      assert (p + s)[1..] == p[1..] + s;
      assert (p + t)[1..] == p[1..] + t;
      assert (p + s)[0] == (p + t)[0];
    } else {
      assert p + s == s && p + t == t;
    }
  }

  /** Inserting underscores twice is inserting underscores. */
  lemma {:induction false} UnderscoredTransitive(a: string, b: string, c: string)
    requires Underscored(a, b) && Underscored(b, c)
    ensures Underscored(a, c)
    decreases |c|
  {
    if |c| > 0 {
      if c[0] == '_' && Underscored(b, c[1..]) {
        UnderscoredTransitive(a, b, c[1..]);
      } else if b[0] == '_' && Underscored(a, b[1..]) {
        UnderscoredTransitive(a, b[1..], c[1..]);
      } else {
        UnderscoredTransitive(a[1..], b[1..], c[1..]);
      }
    }
  }

  /** Lower-casing both sides keeps the relation, because '_' is its own lower case. */
  lemma {:induction false} UnderscoredLower(s: string, t: string)
    requires Underscored(s, t)
    ensures Underscored(Lower(s), Lower(t))
    decreases |t|
  {
    if |t| > 0 {
      assert Lower(t)[1..] == Lower(t[1..]);
      if t[0] == '_' && Underscored(s, t[1..]) {
        UnderscoredLower(s, t[1..]);
      } else {
        UnderscoredLower(s[1..], t[1..]);
        assert Lower(s)[1..] == Lower(s[1..]);
      }
    }
  }

  lemma {:induction false} SplitCapitalizedInserts(s: string)
    ensures Underscored(s, SplitCapitalized(s))
    decreases |s|
  {
    var r := SplitCapitalized(s);
    if |s| >= 3 && s[0] != '\n' && IsUpper(s[1]) && IsLower(s[2]) {
      var j := LowerRunEnd(s, 3);
      var word := s[1..j];
      var rest := SplitCapitalized(s[j..]);
      assert r == [s[0]] + ("_" + (word + rest)) by {
        AppendAssoc([s[0], '_'], word, rest);
        AppendAssoc([s[0]], "_", word + rest);
      }
      assert Underscored(s[1..], "_" + (word + rest)) by {
        SplitCapitalizedInserts(s[j..]);
        UnderscoredPrefix(word, s[j..], rest);
        assert word + s[j..] == s[1..];
      }
    } else if |s| > 0 {
      SplitCapitalizedInserts(s[1..]);
    }
  }

  lemma {:induction false} SplitLowerUpperInserts(s: string)
    ensures Underscored(s, SplitLowerUpper(s))
    decreases |s|
  {
    var r := SplitLowerUpper(s);
    if |s| >= 2 && (IsLower(s[0]) || IsDigit(s[0])) && IsUpper(s[1]) {
      var rest := SplitLowerUpper(s[2..]);
      SplitLowerUpperInserts(s[2..]);
      UnderscoredPrefix([s[1]], s[2..], rest);
      assert [s[1]] + s[2..] == s[1..];
      assert r == [s[0]] + (['_'] + ([s[1]] + rest));
      assert Underscored(s[1..], ['_'] + ([s[1]] + rest));
    } else if |s| > 0 {
      SplitLowerUpperInserts(s[1..]);
    }
  }

  /**
   * `to_snake_case` only inserts underscores and lower-cases: deleting the
   * inserted underscores from its result gives the lower-cased name.
   */
  lemma SnakeCaseInsertsUnderscores(name: string)
    ensures Underscored(Lower(name), Lower(SplitLowerUpper(SplitCapitalized(name))))
    ensures |Lower(SplitLowerUpper(SplitCapitalized(name)))| >= |name|
  {
    var a := SplitCapitalized(name);
    var b := SplitLowerUpper(a);
    SplitCapitalizedInserts(name);
    SplitLowerUpperInserts(a);
    UnderscoredTransitive(name, a, b);
    UnderscoredLower(name, b);
    UnderscoredLength(Lower(name), Lower(b));
  }

  /** A name with no capital letter is left as it is. */
  lemma {:induction false} SnakeCaseWithoutCapitals(name: string)
    requires forall i :: 0 <= i < |name| ==> !IsUpper(name[i])
    ensures ToSnakeCase(name) == name
  {
    NoCapitalsSplitCapitalized(name);
    NoCapitalsSplitLowerUpper(name);
  }

  lemma {:induction false} NoCapitalsSplitCapitalized(s: string)
    requires forall i :: 0 <= i < |s| ==> !IsUpper(s[i])
    ensures SplitCapitalized(s) == s
    decreases |s|
  {
    if |s| > 0 {
      NoCapitalsSplitCapitalized(s[1..]);
      assert s == [s[0]] + s[1..];
    }
  }

  lemma {:induction false} NoCapitalsSplitLowerUpper(s: string)
    requires forall i :: 0 <= i < |s| ==> !IsUpper(s[i])
    ensures SplitLowerUpper(s) == s
    decreases |s|
  {
    if |s| > 0 {
      NoCapitalsSplitLowerUpper(s[1..]);
      assert s == [s[0]] + s[1..];
    }
  }

  lemma {:induction false} LowerRunEndAt(s: string, i: nat, j: nat)
    requires i <= j <= |s|
    requires forall k :: i <= k < j ==> IsLower(s[k])
    requires j == |s| || !IsLower(s[j])
    ensures LowerRunEnd(s, i) == j
    decreases j - i
  {
    if i < j {
      LowerRunEndAt(s, i + 1, j);
    }
  }

  lemma SplitCapitalizedKeep(c: char, x: string)
    requires !(c != '\n' && |x| >= 2 && IsUpper(x[0]) && IsLower(x[1]))
    ensures SplitCapitalized([c] + x) == [c] + SplitCapitalized(x)
  {
    assert ([c] + x)[1..] == x;
  }

  lemma SplitCapitalizedWord(c: char, w: string, x: string)
    requires c != '\n' && |w| >= 2 && IsUpper(w[0])
    requires forall k :: 1 <= k < |w| ==> IsLower(w[k])
    requires |x| == 0 || !IsLower(x[0])
    ensures SplitCapitalized([c] + (w + x)) == [c] + ("_" + (w + SplitCapitalized(x)))
  {
    var s := [c] + (w + x);
    var j := |w| + 1;
    assert s[1..j] == w && s[j..] == x;
    WordRunEnd(c, w, x);
    SplitCapitalizedStep(s, j);
    AppendAssoc([c, '_'], w, SplitCapitalized(x));
    AppendAssoc([c], "_", w + SplitCapitalized(x));
  }

  /** The lower-case run after the second letter of a word ends with the word. */
  lemma WordRunEnd(c: char, w: string, x: string)
    requires |w| >= 2
    requires forall k :: 1 <= k < |w| ==> IsLower(w[k])
    requires |x| == 0 || !IsLower(x[0])
    ensures LowerRunEnd([c] + (w + x), 3) == |w| + 1
  {
    var s := [c] + (w + x);
    var j := |w| + 1;
    forall k | 3 <= k < j
      ensures IsLower(s[k])
    {
      assert s[k] == w[k - 1];
    }
    assert j < |s| ==> s[j] == x[0];
    LowerRunEndAt(s, 3, j);
  }

  lemma SplitCapitalizedStep(s: string, j: nat)
    requires |s| >= 3 && s[0] != '\n' && IsUpper(s[1]) && IsLower(s[2]) && j == LowerRunEnd(s, 3)
    ensures SplitCapitalized(s) == [s[0], '_'] + s[1..j] + SplitCapitalized(s[j..])
  {
  }

  lemma SplitLowerUpperKeep(c: char, x: string)
    requires !((IsLower(c) || IsDigit(c)) && |x| > 0 && IsUpper(x[0]))
    ensures SplitLowerUpper([c] + x) == [c] + SplitLowerUpper(x)
  {
    assert ([c] + x)[1..] == x;
  }

  lemma SplitLowerUpperPair(c: char, d: char, x: string)
    requires (IsLower(c) || IsDigit(c)) && IsUpper(d)
    ensures SplitLowerUpper([c, d] + x) == [c, '_', d] + SplitLowerUpper(x)
  {
    assert ([c, d] + x)[2..] == x;
  }

  /** An upper-case letter followed by one or more lower-case letters. */
  predicate Capitalized(w: string) {
    |w| >= 2 && IsUpper(w[0]) && forall k :: 1 <= k < |w| ==> IsLower(w[k])
  }

  predicate AllLower(s: string) {
    forall k :: 0 <= k < |s| ==> IsLower(s[k])
  }

  /** The first pass joins the end of a lower-case run to the capitalised word after it. */
  lemma {:induction false} SplitCapitalizedRunThenWord(l: string, w: string, rest: string)
    requires |l| >= 1 && AllLower(l) && Capitalized(w)
    requires |rest| == 0 || !IsLower(rest[0])
    ensures SplitCapitalized(l + (w + rest)) == l + ("_" + (w + SplitCapitalized(rest)))
    decreases |l|
  {
    if |l| == 1 {
      SplitCapitalizedWord(l[0], w, rest);
      assert l == [l[0]];
    } else {
      SplitCapitalizedRunThenWord(l[1..], w, rest);
      ConsAppend(l, w + rest);
      SplitCapitalizedKeep(l[0], l[1..] + (w + rest));
      ConsAppend(l, "_" + (w + SplitCapitalized(rest)));
    }
  }

  /** The second pass leaves text alone up to the first lower-or-digit/capital pair. */
  lemma {:induction false} SplitLowerUpperPlain(x: string, rest: string)
    requires forall k :: 0 <= k < |x| ==> !IsUpper(x[k])
    requires |x| == 0 || |rest| == 0 || !IsUpper(rest[0]) || !(IsLower(x[|x| - 1]) || IsDigit(x[|x| - 1]))
    ensures SplitLowerUpper(x + rest) == x + SplitLowerUpper(rest)
    decreases |x|
  {
    if |x| > 0 {
      SplitLowerUpperPlain(x[1..], rest);
      ConsAppend(x, rest);
      SplitLowerUpperKeep(x[0], x[1..] + rest);
      ConsAppend(x, SplitLowerUpper(rest));
    } else {
      assert x + rest == rest;
    }
  }

  lemma SplitLowerUpperPairWord(c: char, w: string)
    requires IsLower(c) && Capitalized(w)
    ensures SplitLowerUpper([c] + w) == [c] + ("_" + w)
  {
    var t := w[1..];
    assert SplitLowerUpper([c] + w) == [c, '_', w[0]] + t by {
      NoCapitalsSplitLowerUpper(t);
      assert [c] + w == [c, w[0]] + t;
      SplitLowerUpperPair(c, w[0], t);
    }
    assert [c, '_', w[0]] + t == [c] + ("_" + w);
  }

  /** The second pass separates a lower-case run from the capitalised word after it. */
  lemma SplitLowerUpperRunThenWord(l: string, w: string)
    requires |l| >= 1 && AllLower(l) && Capitalized(w)
    ensures SplitLowerUpper(l + w) == l + ("_" + w)
  {
    var n := |l| - 1;
    var c := l[n];
    var front := l[..n];
    SplitLowerUpperPairWord(c, w);
    SplitLowerUpperPlain(front, [c] + w);
    assert front + [c] == l;
    AppendAssoc(front, [c], w);
    AppendAssoc(front, [c], "_" + w);
  }

  /** A capitalised word at the front passes through the second pass. */
  lemma SplitLowerUpperWordFirst(w: string, rest: string)
    requires Capitalized(w)
    requires |rest| == 0 || !IsUpper(rest[0])
    ensures SplitLowerUpper(w + rest) == w + SplitLowerUpper(rest)
  {
    SplitLowerUpperPlain(w[1..], rest);
    ConsAppend(w, rest);
    SplitLowerUpperKeep(w[0], w[1..] + rest);
    ConsAppend(w, SplitLowerUpper(rest));
  }

  /**
   * A class name made of three capitalised words becomes the three words
   * lower-cased and joined by '_'. The first pass separates only the first
   * two words; the second pass separates the last two.
   */
  lemma SnakeCaseThreeWords(w1: string, w2: string, w3: string)
    requires Capitalized(w1) && Capitalized(w2) && Capitalized(w3)
    ensures ToSnakeCase(w1 + (w2 + w3)) == Lower(w1) + ("_" + (Lower(w2) + ("_" + Lower(w3))))
  {
    // first pass: only the boundary between w1 and w2 is marked
    NoCapitalsSplitCapitalized(w3[1..]);
    SplitCapitalizedKeep(w3[0], w3[1..]);
    assert w3 == [w3[0]] + w3[1..];
    SplitCapitalizedRunThenWord(w1[1..], w2, w3);
    ConsAppend(w1, w2 + w3);
    SplitCapitalizedKeep(w1[0], w1[1..] + (w2 + w3));
    var p1 := w1 + ("_" + (w2 + w3));
    ConsAppend(w1, "_" + (w2 + w3));
    assert SplitCapitalized(w1 + (w2 + w3)) == p1;
    // second pass: the boundary between w2 and w3 is marked
    SplitLowerUpperRunThenWord(w2[1..], w3);
    ConsAppend(w2, w3);
    SplitLowerUpperKeep(w2[0], w2[1..] + w3);
    ConsAppend(w2, "_" + w3);
    assert SplitLowerUpper(w2 + w3) == w2 + ("_" + w3);
    SplitLowerUpperPlain("_", w2 + w3);
    SplitLowerUpperWordFirst(w1, "_" + (w2 + w3));
    var p2 := w1 + ("_" + (w2 + ("_" + w3)));
    assert SplitLowerUpper(p1) == p2;
    // lower-casing
    LowerAppend(w1, "_" + (w2 + ("_" + w3)));
    LowerAppend("_", w2 + ("_" + w3));
    LowerAppend(w2, "_" + w3);
    LowerAppend("_", w3);
    assert Lower("_") == "_";
  }

  /** A three-word class name. */
  lemma SnakeCaseExample(name: string)
    requires name == "FooBarParser"
    ensures ToSnakeCase(name) == "foo_bar_parser"
  {
    var w1, w2, w3 := name[..3], name[3..6], name[6..];
    assert name == w1 + (w2 + w3) by {
      assert name[3..] == w2 + w3;
    }
    ExampleWords(w1, w2, w3);
    SnakeCaseThreeWords(w1, w2, w3);
  }

  /**
   * The facts about the three words of "FooBarParser" that
   * `SnakeCaseThreeWords` needs, proved apart from the example so that
   * the character-level case split does not meet its sequence reasoning.
   */
  lemma ExampleWords(w1: string, w2: string, w3: string)
    requires w1 == "Foo" && w2 == "Bar" && w3 == "Parser"
    ensures Capitalized(w1) && Capitalized(w2) && Capitalized(w3)
    ensures Lower(w1) + ("_" + (Lower(w2) + ("_" + Lower(w3)))) == "foo_bar_parser"
  {
    forall k | 1 <= k < |w1|
      ensures IsLower(w1[k]) && IsLower(w2[k])
    {
      assert k == 1 || k == 2;
    }
    forall k | 1 <= k < |w3|
      ensures IsLower(w3[k])
    {
      assert k == 1 || k == 2 || k == 3 || k == 4 || k == 5;
    }
    assert Lower(w1) == "foo" && Lower(w2) == "bar";
  }

  /** The directory and name a saved parser is written to under `generated_parsers/en/`. */
  datatype OutputFile = OutputFile(bucket: char, filename: string)

  /** Lines 184-186; `class_name[0]` fails on an empty name, hence the precondition. */
  function OutputFor(className: string): (f: OutputFile)
    requires |className| > 0
    ensures IsLower(f.bucket) || f.bucket == '_'
    ensures f.bucket != '_' <==> IsAlpha(className[0])
    ensures |f.filename| > 3 && f.filename[|f.filename| - 3..] == ".py"
    ensures f.bucket != '_' ==> f.bucket == f.filename[0]
    ensures Underscored(Lower(className), f.filename[..|f.filename| - 3])
  {
    var first := LowerChar(className[0]);
    var snake := ToSnakeCase(className);
    SnakeCaseInsertsUnderscores(className);
    var f := OutputFile(if IsAlpha(first) then first else '_', snake + ".py");
    assert f.filename[..|f.filename| - 3] == snake;
    f
  }

  lemma OutputForExample(className: string)
    requires className == "FooBarParser"
    ensures OutputFor(className) == OutputFile('f', "foo_bar_parser.py")
  {
    SnakeCaseExample(className);
  }
}
