/** The JavaScript string operations the core relies on. */
module Text {

  /** `s.startsWith(prefix)`. */
  predicate StartsWith(s: string, prefix: string) {
    |prefix| <= |s| && s[..|prefix|] == prefix
  }

  /** `s.endsWith(suffix)`. */
  predicate EndsWith(s: string, suffix: string) {
    |suffix| <= |s| && s[|s| - |suffix|..] == suffix
  }

  /** `s.includes(sub)`: `sub` occurs somewhere in `s`. */
  predicate Includes(s: string, sub: string)
    decreases |s|
  {
    StartsWith(s, sub) || (|s| > 0 && Includes(s[1..], sub))
  }

  /** `sub` sits in `s` starting at index `i`. */
  predicate OccursAt(s: string, sub: string, i: int) {
    0 <= i <= |s| - |sub| && s[i..i + |sub|] == sub
  }

  /** `includes` holds exactly when `sub` occurs at some index of `s`. */
  lemma {:induction false} IncludesIffOccurs(s: string, sub: string)
    ensures Includes(s, sub) <==> exists i :: OccursAt(s, sub, i)
    decreases |s|
  {
    if StartsWith(s, sub) {
      assert OccursAt(s, sub, 0);
    } else if |s| > 0 {
      IncludesIffOccurs(s[1..], sub);
      forall i | OccursAt(s[1..], sub, i) ensures OccursAt(s, sub, i + 1) {
        assert s[1..][i..i + |sub|] == s[i + 1..i + 1 + |sub|];
      }
      forall i | OccursAt(s, sub, i) ensures OccursAt(s[1..], sub, i - 1) {
        assert i != 0;
        assert s[1..][i - 1..i - 1 + |sub|] == s[i..i + |sub|];
      }
    } else {
      assert |sub| > 0;
    }
  }

  /** Text in front of an occurrence does not hide it. */
  lemma {:induction false} IncludesAfter(a: string, b: string, sub: string)
    requires Includes(b, sub)
    ensures Includes(a + b, sub)
    decreases |a|
  {
    if |a| > 0 {
      IncludesAfter(a[1..], b, sub);
      assert (a + b)[1..] == a[1..] + b;
    } else {
      assert a + b == b;
    }
  }

  /** Text behind an occurrence does not hide it either. */
  lemma {:induction false} IncludesBefore(a: string, b: string, sub: string)
    requires Includes(a, sub)
    ensures Includes(a + b, sub)
    decreases |a|
  {
    if StartsWith(a, sub) {
      assert (a + b)[..|sub|] == a[..|sub|];
    } else {
      IncludesBefore(a[1..], b, sub);
      assert (a + b)[1..] == a[1..] + b;
    }
  }

  /** `s.split('.').pop()`: the text after the last `.`, or all of `s` when it
      has no `.`. `split` always yields at least one piece, so this is never
      undefined. */
  function AfterLastDot(s: string): (r: string)
    ensures '.' !in r
    ensures EndsWith(s, r)
    ensures |r| < |s| ==> s[|s| - |r| - 1] == '.'
    ensures |r| == |s| ==> '.' !in s
  {
    if |s| == 0 then ""
    else if s[|s| - 1] == '.' then ""
    else AfterLastDot(s[..|s| - 1]) + [s[|s| - 1]]
  }

  /** Any suffix without a `.` that is all of `s` or follows a `.` is the value
      of `split('.').pop()`: the ensures clauses above pin the function down. */
  lemma AfterLastDotUnique(s: string, r: string)
    requires '.' !in r && EndsWith(s, r)
    requires |r| == |s| || s[|s| - |r| - 1] == '.'
    ensures r == AfterLastDot(s)
  {
    var a := AfterLastDot(s);
    assert |a| == |r|;
  }

  /** Joining with a dot: `a + "." + ext` starts with `a.`, ends with `.ext`, and
      `split('.').pop()` of it is `ext` when `ext` holds no dot. */
  lemma AfterLastDotOfJoin(a: string, ext: string)
    requires '.' !in ext
    ensures StartsWith(a + "." + ext, a + ".")
    ensures EndsWith(a + "." + ext, "." + ext)
    ensures AfterLastDot(a + "." + ext) == ext
  {
    var s := a + "." + ext;
    assert s == (a + ".") + ext == a + ("." + ext);
    assert s[..|a| + 1] == a + ".";
    assert s[|s| - |ext| - 1..] == "." + ext;
    assert s[|s| - |ext|..] == ext;
    assert s[|s| - |ext| - 1] == '.';
    AfterLastDotUnique(s, ext);
  }

  function LowerChar(c: char): char {
    if 'A' <= c <= 'Z' then (c as int - 'A' as int + 'a' as int) as char else c
  }

  /** `s.toLowerCase()`, for the letters A to Z. */
  function ToLower(s: string): (r: string)
    ensures |r| == |s|
    ensures forall i :: 0 <= i < |s| ==> r[i] == LowerChar(s[i])
  {
    if |s| == 0 then [] else ToLower(s[..|s| - 1]) + [LowerChar(s[|s| - 1])]
  }

  /** Lowering letters neither adds nor removes a `.`. */
  lemma ToLowerKeepsDots(s: string)
    ensures '.' in ToLower(s) <==> '.' in s
  {
    var r := ToLower(s);
    if '.' in r {
      var i :| 0 <= i < |r| && r[i] == '.';
      assert LowerChar(s[i]) == '.';
    }
    if '.' in s {
      var i :| 0 <= i < |s| && s[i] == '.';
      assert r[i] == '.';
    }
  }
}
