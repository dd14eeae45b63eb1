/**
 * The three `java.lang.String` operations the traversal relies on:
 * `endsWith`, `indexOf(t) >= 0` and `split(" ")` (a single-space
 * separator with the default limit 0).
 */
module JavaString {

  /** `s.endsWith(suffix)`; the empty suffix ends every string. */
  predicate EndsWith(s: string, suffix: string)
  {
    |suffix| <= |s| && s[|s| - |suffix|..] == suffix
  }

  /** `t` occurs at position `i` of `s`. */
  predicate OccursAt(s: string, t: string, i: nat)
  {
    i + |t| <= |s| && s[i..i + |t|] == t
  }

  /** `s.indexOf(t) >= 0`, scanning `s` from the left (case-sensitive). */
  predicate Contains(s: string, t: string)
  {
    if |s| < |t| then false
    else s[..|t|] == t || Contains(s[1..], t)
  }

  /** Every character of a string that `s` contains is a character of `s`. */
  lemma {:induction false} ContainsChars(s: string, t: string, c: char)
    requires Contains(s, t) && c in t
    ensures c in s
  {
    if s[..|t|] != t {
      ContainsChars(s[1..], t, c);
    } else {
      assert c in s[..|t|];
    }
  }

  /** `Contains` holds exactly when `t` occurs at some position of `s`. */
  lemma {:induction false} ContainsOccurs(s: string, t: string)
    ensures Contains(s, t) <==> exists i: nat :: OccursAt(s, t, i)
  {
    if |s| >= |t| && s[..|t|] != t {
      ContainsOccurs(s[1..], t);
      if Contains(s[1..], t) {
        var i: nat :| OccursAt(s[1..], t, i);
        assert OccursAt(s, t, i + 1) by {
          assert s[1..][i..i + |t|] == s[i + 1..i + 1 + |t|];
        }
      }
      if i: nat :| OccursAt(s, t, i) {
        if i > 0 {
          assert s[1..][i - 1..i - 1 + |t|] == s[i..i + |t|];
          assert OccursAt(s[1..], t, i - 1);
        }
      }
    } else if |s| >= |t| {
      assert OccursAt(s, t, 0);
    }
  }

  /**
   * The pieces of `s` between single spaces, empty pieces included:
   * `n` spaces give `n + 1` fields.
   */
  function Fields(s: string): (r: seq<string>)
    ensures |r| >= 1
  {
    if s == [] then [""]
    else
      var rest := Fields(s[1..]);
      if s[0] == ' ' then [""] + rest
      else [[s[0]] + rest[0]] + rest[1..]
  }

  /** Glues non-empty `ts` back together with single spaces. */
  function Join(ts: seq<string>): string
    requires |ts| >= 1
  {
    if |ts| == 1 then ts[0] else ts[0] + " " + Join(ts[1..])
  }

  /** Drops the empty strings at the end of `ts`, as `String.split` does with limit 0. */
  function DropTrailingEmpty(ts: seq<string>): (r: seq<string>)
  {
    if ts == [] then []
    else if ts[|ts| - 1] == "" then DropTrailingEmpty(ts[..|ts| - 1])
    else ts
  }

  /**
   * `s.split(" ")`: a string without a space is returned whole (so `""`
   * gives `[""]`); otherwise the fields with the trailing empty ones removed
   * (so `" "` gives `[]` and `"a  b"` gives `["a", "", "b"]`).
   */
  function JavaSplit(s: string): seq<string>
  {
    if ' ' !in s then [s] else DropTrailingEmpty(Fields(s))
  }

  /** Joining the fields gives back the string, and no field holds a space. */
  lemma {:induction false} JoinFields(s: string)
    ensures Join(Fields(s)) == s
    ensures forall k :: 0 <= k < |Fields(s)| ==> ' ' !in Fields(s)[k]
  {
    if s != [] {
      var rest := Fields(s[1..]);
      JoinFields(s[1..]);
      if s[0] == ' ' {
        assert Fields(s) == [""] + rest;
        assert ([""] + rest)[1..] == rest;
        assert Join(Fields(s)) == "" + " " + Join(rest);
      } else {
        var head := [s[0]] + rest[0];
        assert Fields(s) == [head] + rest[1..];
        assert ' ' !in head by {
          assert ' ' !in rest[0];
        }
        if |rest| == 1 {
          assert Join(Fields(s)) == head == [s[0]] + Join(rest);
        } else {
          assert ([head] + rest[1..])[1..] == rest[1..];
          calc {
            Join(Fields(s));
            head + " " + Join(rest[1..]);
            [s[0]] + (rest[0] + " " + Join(rest[1..]));
            [s[0]] + Join(rest);
          }
        }
        assert s == [s[0]] + s[1..];
      }
    }
  }

  /** A space-free prefix sticks to the first field of what follows it. */
  lemma {:induction false} FieldsOfSpaceFreePrefix(a: string, b: string)
    requires ' ' !in a
    ensures Fields(a + b) == [a + Fields(b)[0]] + Fields(b)[1..]
  {
    if a != [] {
      FieldsOfSpaceFreePrefix(a[1..], b);
      assert (a + b)[1..] == a[1..] + b;
      assert (a + b)[0] == a[0] != ' ';
      assert [a[0]] + (a[1..] + Fields(b)[0]) == a + Fields(b)[0];
    } else {
      assert a + b == b;
      assert a + Fields(b)[0] == Fields(b)[0];
      assert [Fields(b)[0]] + Fields(b)[1..] == Fields(b);
    }
  }

  /** Splitting space-free tokens joined by single spaces gives the tokens back. */
  lemma {:induction false} FieldsJoin(ts: seq<string>)
    requires |ts| >= 1
    requires forall k :: 0 <= k < |ts| ==> ' ' !in ts[k]
    ensures Fields(Join(ts)) == ts
  {
    if |ts| == 1 {
      FieldsOfSpaceFreePrefix(ts[0], "");
      assert ts[0] + "" == ts[0];
    } else {
      var tail := Join(ts[1..]);
      FieldsJoin(ts[1..]);
      assert ts[0] + " " + tail == ts[0] + (" " + tail);
      FieldsOfSpaceFreePrefix(ts[0], " " + tail);
      assert (" " + tail)[1..] == tail;
      assert (" " + tail)[0] == ' ';
      assert Fields(" " + tail) == [""] + ts[1..];
      assert Join(ts) == ts[0] + (" " + tail);
      assert ts[0] + "" == ts[0];
      assert ([""] + ts[1..])[1..] == ts[1..];
      assert ts == [ts[0]] + ts[1..];
    }
  }

  /** What `DropTrailingEmpty` removes is a run of empty strings at the end. */
  lemma {:induction false} DropTrailingEmptyPrefix(ts: seq<string>)
    ensures |DropTrailingEmpty(ts)| <= |ts|
    ensures DropTrailingEmpty(ts) == ts[..|DropTrailingEmpty(ts)|]
    ensures forall k :: |DropTrailingEmpty(ts)| <= k < |ts| ==> ts[k] == ""
    ensures DropTrailingEmpty(ts) == [] || DropTrailingEmpty(ts)[|DropTrailingEmpty(ts)| - 1] != ""
  {
    if ts != [] && ts[|ts| - 1] == "" {
      DropTrailingEmptyPrefix(ts[..|ts| - 1]);
    }
  }

  /**
   * The tokens of `s.split(" ")` hold no space, and a non-empty string is a
   * token exactly when it is one of the space-separated fields of `s`.
   */
  lemma SplitTokens(s: string, t: string)
    ensures forall k :: 0 <= k < |JavaSplit(s)| ==> ' ' !in JavaSplit(s)[k]
    ensures t != "" ==> (t in JavaSplit(s) <==> t in Fields(s))
  {
    JoinFields(s);
    if ' ' !in s {
      FieldsOfSpaceFreePrefix(s, "");
      assert s + "" == s;
    } else {
      var fs := Fields(s);
      DropTrailingEmptyPrefix(fs);
      var r := DropTrailingEmpty(fs);
      if t != "" && t in fs {
        var k :| 0 <= k < |fs| && fs[k] == t;
        assert k < |r|;
        assert r[k] == t;
      }
    }
  }

  /** `n` spaces followed by `s`: the shape of a setting made of spaces only. */
  lemma {:induction false} FieldsOfSpaces(s: string)
    requires forall k :: 0 <= k < |s| ==> s[k] == ' '
    ensures |Fields(s)| == |s| + 1
    ensures forall k :: 0 <= k < |Fields(s)| ==> Fields(s)[k] == ""
  {
    if s != [] {
      FieldsOfSpaces(s[1..]);
    }
  }

  /** A non-empty setting made of spaces only splits into no tokens at all. */
  lemma SplitOfSpaces(s: string)
    requires s != []
    requires forall k :: 0 <= k < |s| ==> s[k] == ' '
    ensures JavaSplit(s) == []
  {
    assert s[0] == ' ';
    FieldsOfSpaces(s);
    DropTrailingEmptyPrefix(Fields(s));
  }

  /** Some empty string of `ts` comes before a non-empty one. */
  predicate EmptyBeforeToken(ts: seq<string>)
  {
    exists i, j :: 0 <= i < j < |ts| && ts[i] == "" && ts[j] != ""
  }

  /** Dropping the trailing empty strings keeps an empty one exactly when a non-empty one follows it. */
  lemma DropTrailingEmptyKeepsEmpty(ts: seq<string>)
    ensures "" in DropTrailingEmpty(ts) <==> EmptyBeforeToken(ts)
  {
    DropTrailingEmptyPrefix(ts);
    var r := DropTrailingEmpty(ts);
    if "" in r {
      var i :| 0 <= i < |r| && r[i] == "";
      var j := |r| - 1;
      assert i < j && ts[i] == "" && ts[j] != "";
    }
    if EmptyBeforeToken(ts) {
      var i, j :| 0 <= i < j < |ts| && ts[i] == "" && ts[j] != "";
      assert j < |r|;
      assert r[i] == "" && r[i] in r;
    }
  }

  /**
   * `s.split(" ")` yields the empty token exactly when `s` is empty or some
   * empty field comes before a non-empty one: a leading space or two spaces
   * in a row before a later token. A trailing run of spaces yields none.
   */
  lemma SplitEmptyToken(s: string)
    ensures "" in JavaSplit(s) <==> s == "" || EmptyBeforeToken(Fields(s))
  {
    if ' ' !in s {
      FieldsOfSpaceFreePrefix(s, "");
      assert s + "" == s;
      assert Fields(s) == [s];
    } else {
      DropTrailingEmptyKeepsEmpty(Fields(s));
    }
  }

  /** A leading space before a token: `" .class"` splits into the empty token and `.class`. */
  lemma SplitOfLeadingSpace()
    ensures JavaSplit(" .class") == ["", ".class"]
  {
    FieldsOfSpaceFreePrefix(".class", "");
    assert ".class" + "" == ".class";
    assert " .class"[1..] == ".class";
  }

  /** The empty setting is not split at all: it is the single empty token. */
  lemma SplitOfEmpty()
    ensures JavaSplit("") == [""]
  {
  }
}
