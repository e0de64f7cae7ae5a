/** The string operations the chart scripts rely on, over ASCII: the regular-expression
    class `\w`, `str.split`, `str.join`, `str.replace` of one character, `str.title` and
    the substring test `p in s`. */
module Text {

  /** `\w` restricted to ASCII: letters, digits and underscore. */
  predicate IsWordChar(c: char)
  {
    'a' <= c <= 'z' || 'A' <= c <= 'Z' || '0' <= c <= '9' || c == '_'
  }

  predicate IsWord(s: string)
  {
    forall i :: 0 <= i < |s| ==> IsWordChar(s[i])
  }

  /** Length of the longest prefix of s made of word characters (what a greedy `\w+`
      or `\w*` consumes). */
  function WordRun(s: string): (k: nat)
    ensures k <= |s|
    ensures IsWord(s[..k])
    ensures k < |s| ==> !IsWordChar(s[k])
  {
    if s == [] || !IsWordChar(s[0]) then 0
    else
      var k := 1 + WordRun(s[1..]);
      assert s[..k] == [s[0]] + s[1..][..k - 1];
      k
  }

  /** A word followed by a non-word character: the greedy run stops exactly there. */
  lemma {:induction false} WordRunOfWord(w: string, rest: string)
    requires IsWord(w)
    requires rest != [] && !IsWordChar(rest[0])
    ensures WordRun(w + rest) == |w|
  {
    if w != [] {
      assert (w + rest)[1..] == w[1..] + rest;
      WordRunOfWord(w[1..], rest);
    } else {
      assert w + rest == rest;
    }
  }

  /** `s.split(sep)`: the pieces between occurrences of sep, empty pieces included. */
  function Split(s: string, sep: char): (parts: seq<string>)
    ensures |parts| >= 1
    ensures forall k :: 0 <= k < |parts| ==> sep !in parts[k]
  {
    if s == [] then [""]
    else if s[0] == sep then [""] + Split(s[1..], sep)
    else
      var rest := Split(s[1..], sep);
      [[s[0]] + rest[0]] + rest[1..]
  }

  /** `sep.join(parts)`. */
  function Join(sep: string, parts: seq<string>): (r: string)
    ensures parts == [] ==> r == ""
    ensures |parts| == 1 ==> r == parts[0]
  {
    if parts == [] then ""
    else if |parts| == 1 then parts[0]
    else parts[0] + sep + Join(sep, parts[1..])
  }

  /** Joining the pieces of a split with the same separator gives back the string. */
  lemma {:induction false} JoinSplit(s: string, sep: char)
    ensures Join([sep], Split(s, sep)) == s
  {
    JoinSplitReplace(s, sep, sep);
    assert Replace(s, sep, sep) == s;
  }

  /** Splitting a join of separator-free pieces gives back the pieces. */
  lemma {:induction false} SplitJoin(parts: seq<string>, sep: char)
    requires |parts| >= 1
    requires forall k :: 0 <= k < |parts| ==> sep !in parts[k]
    ensures Split(Join([sep], parts), sep) == parts
  {
    if |parts| == 1 {
      SplitNoSeparator(parts[0], sep);
    } else {
      SplitJoin(parts[1..], sep);
      SplitAround(parts[0], Join([sep], parts[1..]), sep);
      assert Join([sep], parts) == parts[0] + [sep] + Join([sep], parts[1..]);
      assert [parts[0]] + parts[1..] == parts;
    }
  }

  lemma {:induction false} SplitNoSeparator(s: string, sep: char)
    requires sep !in s
    ensures Split(s, sep) == [s]
  {
    if s != [] {
      SplitNoSeparator(s[1..], sep);
      assert [s[0]] + s[1..] == s;
    }
  }

  lemma {:induction false} SplitAround(a: string, b: string, sep: char)
    requires sep !in a
    ensures Split(a + [sep] + b, sep) == [a] + Split(b, sep)
  {
    if a == [] {
      assert a + [sep] + b == [sep] + b;
      assert ([sep] + b)[1..] == b;
    } else {
      assert (a + [sep] + b)[1..] == a[1..] + [sep] + b;
      SplitAround(a[1..], b, sep);
      assert [a[0]] + a[1..] == a;
    }
  }

  /** `s.replace(old, new)` for single characters. */
  function Replace(s: string, from: char, to: char): (r: string)
    ensures |r| == |s|
    ensures forall i :: 0 <= i < |s| ==> r[i] == if s[i] == from then to else s[i]
  {
    seq(|s|, i requires 0 <= i < |s| => if s[i] == from then to else s[i])
  }

  /** Splitting on one character and joining with another is replacing the one by the
      other. */
  lemma {:induction false} JoinSplitReplace(s: string, sep: char, with: char)
    ensures Join([with], Split(s, sep)) == Replace(s, sep, with)
  {
    if s != [] {
      JoinSplitReplace(s[1..], sep, with);
      var rest := Split(s[1..], sep);
      if s[0] == sep {
        assert Replace(s, sep, with) == [with] + Replace(s[1..], sep, with);
      } else {
        assert Replace(s, sep, with) == [s[0]] + Replace(s[1..], sep, with);
        if |rest| == 1 {
          assert Split(s, sep) == [[s[0]] + rest[0]];
        } else {
          assert Join([with], rest) == rest[0] + [with] + Join([with], rest[1..]);
          assert Split(s, sep)[1..] == rest[1..];
        }
      }
    }
  }

  predicate IsUpper(c: char) { 'A' <= c <= 'Z' }
  predicate IsLower(c: char) { 'a' <= c <= 'z' }
  predicate IsCased(c: char) { IsUpper(c) || IsLower(c) }

  function ToUpper(c: char): char
  {
    if IsLower(c) then (c as int - 32) as char else c
  }

  function ToLower(c: char): char
  {
    if IsUpper(c) then (c as int + 32) as char else c
  }

  /** `str.title()`: a cased character is upper-cased when the character before it is
      not cased (or it is first) and lower-cased otherwise; other characters stay. */
  function Title(s: string): (r: string)
    ensures |r| == |s|
  {
    seq(|s|, i requires 0 <= i < |s| =>
      if i > 0 && IsCased(s[i - 1]) then ToLower(s[i]) else ToUpper(s[i]))
  }

  /** What title-casing does to each character: casedness and the letter are kept, and
      a letter is upper-case exactly when it starts a run of letters. */
  lemma TitleCasing(s: string)
    ensures forall i :: 0 <= i < |s| ==> IsCased(Title(s)[i]) == IsCased(s[i])
    ensures forall i :: 0 <= i < |s| ==> ToLower(Title(s)[i]) == ToLower(s[i])
    ensures forall i :: 0 <= i < |s| && IsCased(s[i]) ==>
      (IsUpper(Title(s)[i]) <==> i == 0 || !IsCased(s[i - 1]))
  {
    var r := Title(s);
    forall i | 0 <= i < |s| ensures IsCased(r[i]) == IsCased(s[i]) && ToLower(r[i]) == ToLower(s[i])
      && (IsCased(s[i]) ==> (IsUpper(r[i]) <==> i == 0 || !IsCased(s[i - 1]))) {
      assert r[i] == if i > 0 && IsCased(s[i - 1]) then ToLower(s[i]) else ToUpper(s[i]);
    }
  }

  /** Title-casing twice is title-casing once. */
  lemma TitleIdempotent(s: string)
    ensures Title(Title(s)) == Title(s)
  {
    var t := Title(s);
    TitleCasing(s);
    forall i | 0 <= i < |s| ensures Title(t)[i] == t[i] {
      if i > 0 && IsCased(s[i - 1]) {
        assert IsCased(t[i - 1]);
      } else if i > 0 {
        assert !IsCased(t[i - 1]);
      }
    }
  }

  /** The string with every letter lower-cased: two strings that agree on it are equal up
      to case. */
  function LowerAll(s: string): (r: string)
    ensures |r| == |s|
    ensures forall i :: 0 <= i < |s| ==> r[i] == ToLower(s[i])
  {
    seq(|s|, i requires 0 <= i < |s| => ToLower(s[i]))
  }

  /** Splitting on a character that lower-casing neither produces nor changes commutes
      with lower-casing: the pieces are the lower-cased pieces. */
  lemma {:induction false} SplitLower(s: string, sep: char)
    requires !IsUpper(sep) && !IsLower(sep)
    ensures |Split(LowerAll(s), sep)| == |Split(s, sep)|
    ensures forall k :: 0 <= k < |Split(s, sep)| ==> Split(LowerAll(s), sep)[k] == LowerAll(Split(s, sep)[k])
  {
    if s != [] {
      var l := LowerAll(s);
      var rest := Split(s[1..], sep);
      var lrest := Split(l[1..], sep);
      assert l[1..] == LowerAll(s[1..]);
      SplitLower(s[1..], sep);
      var parts := Split(s, sep);
      var lparts := Split(l, sep);
      if s[0] == sep {
        assert lparts == [""] + lrest;
        assert parts == [""] + rest;
        forall k | 0 <= k < |parts| ensures lparts[k] == LowerAll(parts[k]) {
          if k > 0 {
            assert lparts[k] == lrest[k - 1];
          }
        }
      } else {
        assert lparts == [[l[0]] + lrest[0]] + lrest[1..];
        assert parts == [[s[0]] + rest[0]] + rest[1..];
        assert LowerAll([s[0]] + rest[0]) == [l[0]] + lrest[0];
        forall k | 0 <= k < |parts| ensures lparts[k] == LowerAll(parts[k]) {
          if k > 0 {
            assert lparts[k] == lrest[k];
          }
        }
      }
    }
  }

  /** The pieces of a split contain only characters of the string. */
  lemma {:induction false} SplitAvoids(s: string, sep: char, c: char)
    requires c !in s
    ensures forall k :: 0 <= k < |Split(s, sep)| ==> c !in Split(s, sep)[k]
  {
    if s != [] {
      SplitAvoids(s[1..], sep, c);
    }
  }

  /** p occurs in s starting at position i. */
  ghost predicate OccursAt(s: string, p: string, i: int)
  {
    0 <= i && i + |p| <= |s| && s[i..i + |p|] == p
  }

  /** An occurrence in the tail of s is an occurrence in s one position later. */
  lemma OccursShift(s: string, p: string, i: int)
    requires s != [] && i >= 0
    ensures OccursAt(s[1..], p, i) <==> OccursAt(s, p, i + 1)
  {
    if 0 <= i && i + |p| <= |s| - 1 {
      assert s[1..][i..i + |p|] == s[i + 1..i + 1 + |p|];
    }
  }

  /** The substring test `p in s`. */
  function Contains(s: string, p: string): (b: bool)
    ensures b <==> exists i :: OccursAt(s, p, i)
  {
    if |p| > |s| then false
    else if s[..|p|] == p then
      assert OccursAt(s, p, 0);
      true
    else
      var t := s[1..];
      var b := Contains(t, p);
      assert b ==> exists j :: OccursAt(s, p, j) by {
        if b {
          var i :| OccursAt(t, p, i);
          OccursShift(s, p, i);
        }
      }
      assert (exists j :: OccursAt(s, p, j)) ==> b by {
        if exists j :: OccursAt(s, p, j) {
          var j :| OccursAt(s, p, j);
          assert j > 0;
          OccursShift(s, p, j - 1);
        }
      }
      b
  }

  /** A non-empty pattern whose first character is absent from s does not occur in s. */
  lemma FirstCharAbsent(s: string, p: string)
    requires |p| >= 1 && p[0] !in s
    ensures !Contains(s, p)
  {
  }
}
