/** The callee name the detector compares. An invocation's name is its
    executable's simple name; a constructor call's name is cut out of its
    signature with Java's `String.split`: the text before the first "(",
    then its last "."-separated segment. `String.split` drops trailing
    empty strings, so a signature such as "((" or ".(" leaves an empty
    array, and indexing it throws. */
module Names {
  import opened Outcomes
  import opened Ast

  /** The maximal runs of `s` between occurrences of `c`, empty runs
      included; `Join` is its inverse. */
  function Segments(s: string, c: char): (r: seq<string>)
    ensures |r| >= 1
    ensures forall i | 0 <= i < |r| :: c !in r[i]
  {
    if |s| == 0 then [""]
    else if s[0] == c then [""] + Segments(s[1..], c)
    else
      var rest := Segments(s[1..], c);
      [[s[0]] + rest[0]] + rest[1..]
  }

  /** The segments glued back together with `c` between neighbours. */
  function Join(parts: seq<string>, c: char): string
    requires |parts| >= 1
  {
    if |parts| == 1 then parts[0] else parts[0] + [c] + Join(parts[1..], c)
  }

  /** Splitting and joining again gives back the text. */
  lemma {:induction false} JoinSegments(s: string, c: char)
    ensures Join(Segments(s, c), c) == s
  {
    if |s| == 0 {
    } else if s[0] == c {
      JoinSegments(s[1..], c);
      assert [c] + s[1..] == s;
    } else {
      var rest := Segments(s[1..], c);
      JoinSegments(s[1..], c);
      var r := Segments(s, c);
      assert r[1..] == rest[1..];
      if |rest| == 1 {
        assert [s[0]] + rest[0] == s;
      } else {
        assert Join(rest, c) == rest[0] + [c] + Join(rest[1..], c);
        assert Join(r, c) == [s[0]] + rest[0] + [c] + Join(rest[1..], c);
        assert [s[0]] + s[1..] == s;
      }
    }
  }

  /** Separated texts split into the segments of each, side by side. */
  lemma {:induction false} SegmentsOfSeparated(u: string, c: char, v: string)
    ensures Segments(u + [c] + v, c) == Segments(u, c) + Segments(v, c)
    decreases |u|
  {
    if |u| == 0 {
      assert u + [c] + v == [c] + v;
      assert ([c] + v)[1..] == v;
    } else {
      var w := u + [c] + v;
      assert w[0] == u[0];
      assert w[1..] == u[1..] + [c] + v;
      SegmentsOfSeparated(u[1..], c, v);
    }
  }

  /** A text without `c` is a single segment. */
  lemma {:induction false} SegmentsWithout(s: string, c: char)
    requires c !in s
    ensures Segments(s, c) == [s]
  {
    if |s| > 0 {
      assert c !in s[1..];
      SegmentsWithout(s[1..], c);
      assert [s[0]] + s[1..] == s;
    }
  }

  /** The list with its trailing empty strings removed. */
  function TrimTrailingEmpty(parts: seq<string>): (r: seq<string>)
    ensures |r| <= |parts| && r == parts[..|r|]
    ensures |r| > 0 ==> r[|r| - 1] != ""
    ensures forall i | |r| <= i < |parts| :: parts[i] == ""
  {
    if |parts| > 0 && parts[|parts| - 1] == "" then TrimTrailingEmpty(parts[..|parts| - 1])
    else parts
  }

  /** Java's `s.split(c)`: the whole text when `c` does not occur,
      otherwise the segments without their trailing empty strings. */
  function JavaSplit(s: string, c: char): seq<string> {
    if c !in s then [s] else TrimTrailingEmpty(Segments(s, c))
  }

  /** The constructor name read from a constructor call's signature
      (`split("\\(")[0].split("\\.")`, last element). */
  function ConstructorName(signature: string): Result<string> {
    var beforeParen := JavaSplit(signature, '(');
    if |beforeParen| == 0 then Crash(IndexOutOfBounds)
    else
      var dotted := JavaSplit(beforeParen[0], '.');
      if |dotted| == 0 then Crash(IndexOutOfBounds)
      else Ok(dotted[|dotted| - 1])
  }

  /** The callee name of a call: the simple name of an invocation's
      executable, the constructor name of a constructor call. Any other
      element is cast to `CtConstructorCall` and fails. */
  function CallName(n: Node): Result<string> {
    if n.kind.Invocation? then Ok(n.name)
    else if n.kind.ConstructorCall? then ConstructorName(n.signature)
    else Crash(ClassCast)
  }

  /** A name of one segment: non-empty, without "." or "(". */
  predicate Simple(s: string) {
    |s| > 0 && '.' !in s && '(' !in s
  }

  /** A package prefix: no "(" in it. */
  predicate Qualifier(s: string) {
    '(' !in s
  }

  /** The name read from "pkg.Cls(params)" is "Cls", whatever the package
      and the parameter text. */
  lemma ConstructorNameOfQualified(pkg: string, cls: string, params: string)
    requires Qualifier(pkg) && Simple(cls)
    ensures ConstructorName(pkg + "." + cls + "(" + params) == Ok(cls)
  {
    var head := pkg + "." + cls;
    assert '(' !in head by {
      forall i | 0 <= i < |head| ensures head[i] != '(' {
        if i < |pkg| { assert head[i] == pkg[i]; }
        else if i > |pkg| { assert head[i] == cls[i - |pkg| - 1]; }
      }
    }
    HeadBeforeParen(head, params);
    assert pkg + "." + cls == pkg + ['.'] + cls;
    SegmentsOfSeparated(pkg, '.', cls);
    SegmentsWithout(cls, '.');
    assert '.' in head by { assert head[|pkg|] == '.'; }
  }

  /** The name read from "Cls(params)" is "Cls". */
  lemma ConstructorNameOfUnqualified(cls: string, params: string)
    requires Simple(cls)
    ensures ConstructorName(cls + "(" + params) == Ok(cls)
  {
    HeadBeforeParen(cls, params);
  }

  /** The first element of splitting "head(rest)" by "(" is "head" when
      "head" is non-empty and has no "(". */
  lemma HeadBeforeParen(head: string, rest: string)
    requires |head| > 0 && '(' !in head
    ensures |JavaSplit(head + "(" + rest, '(')| > 0
    ensures JavaSplit(head + "(" + rest, '(')[0] == head
  {
    var s := head + "(" + rest;
    assert s == head + ['('] + rest;
    assert s[|head|] == '(';
    SegmentsOfSeparated(head, '(', rest);
    SegmentsWithout(head, '(');
    var segs := Segments(s, '(');
    assert segs[0] == head;
  }

  /** The signature examples "a.b.C(int)" and "C()" name "C". */
  lemma ConstructorNameExamples()
    ensures ConstructorName("a.b.C(int)") == Ok("C")
    ensures ConstructorName("C()") == Ok("C")
  {
    ConstructorNameOfQualified("a.b", "C", "int)");
    assert "a.b" + "." + "C" + "(" + "int)" == "a.b.C(int)";
    ConstructorNameOfUnqualified("C", ")");
    assert "C" + "(" + ")" == "C()";
  }

  /** A text of `n` opening parentheses. */
  function Parens(n: nat): string {
    seq(n, _ => '(')
  }

  predicate AllEmpty(parts: seq<string>) {
    forall i | 0 <= i < |parts| :: parts[i] == ""
  }

  /** Splitting throws on a non-empty signature made only of "(". */
  lemma ConstructorNameCrashesOnParens(n: nat)
    requires n > 0
    ensures ConstructorName(Parens(n)) == Crash(IndexOutOfBounds)
  {
    assert Parens(n)[0] == '(';
    AllEmptySegments(n);
    TrimAllEmpty(Segments(Parens(n), '('));
  }

  lemma {:induction false} AllEmptySegments(n: nat)
    ensures AllEmpty(Segments(Parens(n), '('))
  {
    if n > 0 {
      assert Parens(n)[1..] == Parens(n - 1);
      AllEmptySegments(n - 1);
    }
  }

  lemma {:induction false} TrimAllEmpty(parts: seq<string>)
    requires AllEmpty(parts)
    ensures TrimTrailingEmpty(parts) == []
  {
    if |parts| > 0 {
      TrimAllEmpty(parts[..|parts| - 1]);
    }
  }
}
