/** The clean-up chain applied to a matched line: five `str.replace(x, "")`
    calls, in this order: newline, tab, `=`, the field name, double quote. */
module Cleanup {
  import opened Strings

  /** Python's `s.replace(t, "")`: scanning left to right, every occurrence of
      `t` that does not overlap an earlier deleted one is deleted. An empty `t`
      leaves `s` unchanged. */
  function RemoveAll(s: string, t: string): (r: string)
    ensures |r| <= |s|
    ensures |t| == 0 ==> r == s
    decreases |s|
  {
    if |t| == 0 || |s| < |t| then s
    else if OccursAt(s, t, 0) then RemoveAll(s[|t|..], t)
    else [s[0]] + RemoveAll(s[1..], t)
  }

  /** The cleaned value of a matched line for field `name`. */
  function Clean(line: string, name: string): (r: string)
    ensures |r| <= |line|
  {
    RemoveAll(RemoveAll(RemoveAll(RemoveAll(RemoveAll(line, "\n"), "\t"), "="), name), "\"")
  }

  /** A character the clean-up chain deletes wherever it occurs. */
  predicate IsSeparator(c: char) {
    c == '\n' || c == '\t' || c == '=' || c == '"'
  }

  /** Deleting a single character, one step: the first character is dropped
      when it is `c` and kept otherwise. */
  lemma RemoveCharStep(s: string, c: char)
    requires s != []
    ensures RemoveAll(s, [c]) == (if s[0] == c then [] else [s[0]]) + RemoveAll(s[1..], [c])
  {
    assert s[0..1] == [s[0]];
  }

  /** Deleting a single character leaves none of it. */
  lemma {:induction false} RemoveCharGone(s: string, c: char)
    ensures c !in RemoveAll(s, [c])
    decreases |s|
  {
    if s != [] {
      RemoveCharStep(s, c);
      RemoveCharGone(s[1..], c);
    }
  }

  /** Deleting never introduces a character. */
  lemma {:induction false} RemoveAllKeeps(s: string, t: string)
    ensures forall c :: c in RemoveAll(s, t) ==> c in s
    decreases |s|
  {
    if |t| == 0 || |s| < |t| {
    } else if OccursAt(s, t, 0) {
      RemoveAllKeeps(s[|t|..], t);
      assert forall c :: c in s[|t|..] ==> c in s;
    } else {
      RemoveAllKeeps(s[1..], t);
      assert forall c :: c in s[1..] ==> c in s;
    }
  }

  /** A cleaned value contains no newline, tab, `=` or `"`: each is deleted by
      its own step, and the later steps only delete. */
  lemma CleanHasNoSeparators(line: string, name: string)
    ensures forall c :: c in Clean(line, name) ==> !IsSeparator(c)
  {
    var s1 := RemoveAll(line, "\n");
    var s2 := RemoveAll(s1, "\t");
    var s3 := RemoveAll(s2, "=");
    var s4 := RemoveAll(s3, name);
    RemoveCharGone(line, '\n');
    RemoveCharGone(s1, '\t');
    RemoveCharGone(s2, '=');
    RemoveCharGone(s4, '"');
    RemoveAllKeeps(s1, "\t");
    RemoveAllKeeps(s2, "=");
    RemoveAllKeeps(s3, name);
    RemoveAllKeeps(s4, "\"");
  }

  /** Deleting a character distributes over concatenation. */
  lemma {:induction false} RemoveCharConcat(a: string, b: string, c: char)
    ensures RemoveAll(a + b, [c]) == RemoveAll(a, [c]) + RemoveAll(b, [c])
    decreases |a|
  {
    if a == [] {
      assert a + b == b;
    } else {
      var x := if a[0] == c then [] else [a[0]];
      RemoveCharStep(a, c);
      RemoveCharStep(a + b, c);
      assert (a + b)[0] == a[0] && (a + b)[1..] == a[1..] + b;
      assert RemoveAll(a + b, [c]) == x + RemoveAll(a[1..] + b, [c]);
      RemoveCharConcat(a[1..], b, c);
      assert RemoveAll(a + b, [c]) == x + (RemoveAll(a[1..], [c]) + RemoveAll(b, [c]));
    }
  }

  /** Deleting a character that does not occur changes nothing. */
  lemma {:induction false} RemoveCharAbsent(s: string, c: char)
    requires c !in s
    ensures RemoveAll(s, [c]) == s
    decreases |s|
  {
    if s != [] {
      RemoveCharStep(s, c);
      RemoveCharAbsent(s[1..], c);
      assert [s[0]] + s[1..] == s;
    }
  }

  /** Deleting a character from a run of only that character leaves nothing. */
  lemma {:induction false} RemoveCharOnly(s: string, c: char)
    requires forall x :: x in s ==> x == c
    ensures RemoveAll(s, [c]) == []
    decreases |s|
  {
    if s != [] {
      RemoveCharStep(s, c);
      assert s[0] in s;
      assert forall x :: x in s[1..] ==> x in s;
      RemoveCharOnly(s[1..], c);
    }
  }

  /** Deleting a string that does not occur changes nothing. */
  lemma {:induction false} RemoveAbsent(s: string, t: string)
    requires Absent(t, s)
    ensures RemoveAll(s, t) == s
    decreases |s|
  {
    if |t| > 0 && |s| >= |t| {
      assert !OccursAt(s, t, 0);
      assert Absent(t, s[1..]) by {
        forall i: nat | i <= |s[1..]|
          ensures !OccursAt(s[1..], t, i)
        {
          assert !OccursAt(s, t, i + 1);
          if i + |t| <= |s[1..]| {
            assert s[1..][i..i + |t|] == s[i + 1..i + 1 + |t|];
          }
        }
      }
      RemoveAbsent(s[1..], t);
      assert [s[0]] + s[1..] == s;
    }
  }

  /** A string that holds none of `c` cannot occur in `[c] + v + [c]` unless it
      occurs in `v`. */
  lemma AbsentBetweenQuotes(t: string, v: string, c: char)
    requires |t| > 0 && c !in t
    requires Absent(t, v)
    ensures Absent(t, [c] + v + [c])
  {
    var w := [c] + v + [c];
    forall i: nat | i <= |w|
      ensures !OccursAt(w, t, i)
    {
      if i + |t| <= |w| {
        if i == 0 {
          assert w[i..i + |t|][0] == c != t[0];
        } else if i + |t| == |w| {
          assert w[i..i + |t|][|t| - 1] == c != t[|t| - 1];
        } else {
          assert w[i..i + |t|] == v[i - 1..i - 1 + |t|];
          assert !OccursAt(v, t, i - 1);
        }
      }
    }
  }

  /** Step 1 on a key/value line: only the newlines of the indentation and the
      terminating newline go. */
  lemma CleanStepNewline(prefix: string, body: string)
    requires '\n' !in body
    ensures RemoveAll(prefix + body + "\n", "\n") == RemoveAll(prefix, "\n") + body
  {
    RemoveCharConcat(prefix + body, "\n", '\n');
    RemoveCharConcat(prefix, body, '\n');
    RemoveCharAbsent(body, '\n');
    RemoveCharOnly("\n", '\n');
  }

  /** Step 2: what is left of the indentation is tabs, and they go. */
  lemma CleanStepTab(prefix: string, body: string)
    requires forall c :: c in prefix ==> c == '\n' || c == '\t'
    requires '\t' !in body
    ensures RemoveAll(RemoveAll(prefix, "\n") + body, "\t") == body
  {
    var p1 := RemoveAll(prefix, "\n");
    RemoveCharGone(prefix, '\n');
    RemoveAllKeeps(prefix, "\n");
    RemoveCharOnly(p1, '\t');
    RemoveCharConcat(p1, body, '\t');
    RemoveCharAbsent(body, '\t');
  }

  /** Step 3: the one `=` separator goes. */
  lemma CleanStepEquals(name: string, rest: string)
    requires '=' !in name && '=' !in rest
    ensures RemoveAll(name + "=" + rest, "=") == name + rest
  {
    RemoveCharConcat(name + "=", rest, '=');
    RemoveCharConcat(name, "=", '=');
    RemoveCharAbsent(name, '=');
    RemoveCharAbsent(rest, '=');
    RemoveCharOnly("=", '=');
    assert RemoveAll(name + "=", "=") == name;
  }

  /** Step 4: the leading name goes, and nothing else matches it. */
  lemma CleanStepName(name: string, rest: string)
    requires |name| > 0 && Absent(name, rest)
    ensures RemoveAll(name + rest, name) == rest
  {
    assert OccursAt(name + rest, name, 0);
    assert (name + rest)[|name|..] == rest;
    RemoveAbsent(rest, name);
  }

  /** Step 5: the surrounding quotes, if any, go. */
  lemma CleanStepQuote(q: string, value: string)
    requires q == "" || q == "\""
    requires '"' !in value
    ensures RemoveAll(q + value + q, "\"") == value
  {
    RemoveCharConcat(q + value, q, '"');
    RemoveCharConcat(q, value, '"');
    RemoveCharAbsent(value, '"');
    RemoveCharOnly(q, '"');
  }

  /** Regrouping a key/value line into indentation, body and newline. */
  lemma LineParts(prefix: string, name: string, q: string, value: string)
    ensures prefix + name + "=" + q + value + q + "\n" == prefix + (name + "=" + (q + value + q)) + "\n"
  {
  }

  /** The key/value line: a line `prefix + name + "=" + q + value + q + "\n"`,
      where the indentation `prefix` is made of newlines and tabs, `q` is empty
      or one double quote, and neither `name` nor `value` holds a separator,
      cleans to exactly `value` when the name does not occur inside the value. */
  lemma CleanKeyValueLine(prefix: string, name: string, q: string, value: string)
    requires forall c :: c in prefix ==> c == '\n' || c == '\t'
    requires q == "" || q == "\""
    requires |name| > 0 && forall c :: c in name ==> !IsSeparator(c)
    requires forall c :: c in value ==> !IsSeparator(c)
    requires Absent(name, value)
    ensures Clean(prefix + name + "=" + q + value + q + "\n", name) == value
  {
    var quoted := q + value + q;
    var body := name + "=" + quoted;
    var line := prefix + name + "=" + q + value + q + "\n";
    LineParts(prefix, name, q, value);
    assert '"' !in value && '=' !in value && '\n' !in value && '\t' !in value;
    assert '=' !in name && '\n' !in name && '\t' !in name && '"' !in name;
    assert '=' !in quoted && '\n' !in quoted && '\t' !in quoted;
    assert '\n' !in body && '\t' !in body;
    var s1 := RemoveAll(line, "\n");
    CleanStepNewline(prefix, body);
    var s2 := RemoveAll(s1, "\t");
    CleanStepTab(prefix, body);
    assert s2 == body;
    var s3 := RemoveAll(s2, "=");
    CleanStepEquals(name, quoted);
    assert s3 == name + quoted;
    if q == "" {
      assert quoted == value;
    } else {
      assert quoted == ['"'] + value + ['"'];
      AbsentBetweenQuotes(name, value, '"');
    }
    var s4 := RemoveAll(s3, name);
    CleanStepName(name, quoted);
    assert s4 == quoted;
    CleanStepQuote(q, value);
  }
}
