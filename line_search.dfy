/** The two fixed regular-expression shapes of the extractor and Python's
    `Pattern.search` over them.

    A flat field is compiled from `"\n" + name + ".*\n"`, a nested field from
    `"\n\t" + name + ".*\n"`. Since `.` does not match a newline, such a pattern
    matches at index `i` exactly when the literal head (`"\n" + name` or
    `"\n\t" + name`) occurs at `i` and some newline follows the head; the match
    then ends just after the FIRST newline following the head. `search` returns
    the match with the smallest start index. The field name is taken literally
    (it holds no regular-expression metacharacters). */
module LineSearch {
  import opened Options
  import opened Strings

  datatype Shape = Flat | Nested

  /** What precedes the field name: a newline, and for a nested field one tab. */
  function Prefix(shape: Shape): string {
    match shape
    case Flat => "\n"
    case Nested => "\n\t"
  }

  /** The index of the first newline at or after `from`, if there is one. */
  function LineEnd(s: string, from: nat): (r: Option<nat>)
    decreases |s| - from
    ensures r.Some? ==> from <= r.value < |s| && s[r.value] == '\n'
    ensures r.Some? ==> forall j :: from <= j < r.value ==> s[j] != '\n'
    ensures r.None? ==> forall j :: from <= j < |s| ==> s[j] != '\n'
  {
    if from >= |s| then None
    else if s[from] == '\n' then Some(from)
    else LineEnd(s, from + 1)
  }

  /** The pattern with literal head `head` matches at index `i`. */
  predicate MatchesAt(s: string, head: string, i: nat) {
    OccursAt(s, head, i) && LineEnd(s, i + |head|).Some?
  }

  /** The matched text is `s[start..end]`. */
  datatype Span = Span(start: nat, end: nat)

  /** The leftmost match at or after `from`. */
  function SearchFrom(s: string, head: string, from: nat): (r: Option<Span>)
    decreases |s| + 1 - from
    ensures r.Some? ==> from <= r.value.start && r.value.start + |head| < r.value.end <= |s|
  {
    if from + |head| > |s| then None
    else if MatchesAt(s, head, from) then Some(Span(from, LineEnd(s, from + |head|).value + 1))
    else SearchFrom(s, head, from + 1)
  }

  /** The search is sound and returns the leftmost match: a result is a match
      at or after `from`, ending just after its line's newline, with no match
      between `from` and it; no result means no match at or after `from`. */
  lemma {:induction false} SearchFromSpec(s: string, head: string, from: nat)
    ensures var r := SearchFrom(s, head, from);
      && (r.Some? ==> from <= r.value.start && MatchesAt(s, head, r.value.start))
      && (r.Some? ==> r.value.end == LineEnd(s, r.value.start + |head|).value + 1)
      && (r.Some? ==> forall k :: from <= k < r.value.start ==> !MatchesAt(s, head, k))
      && (r.None? ==> forall k :: from <= k ==> !MatchesAt(s, head, k))
    decreases |s| + 1 - from
  {
    if from + |head| <= |s| && !MatchesAt(s, head, from) {
      SearchFromSpec(s, head, from + 1);
    }
  }

  /** `re.compile(head + ".*\n").search(s)`. */
  function Search(s: string, head: string): (r: Option<Span>)
    ensures r.Some? ==> r.value.start + |head| < r.value.end <= |s| && s[r.value.end - 1] == '\n'
  {
    SearchFromSpec(s, head, 0);
    SearchFrom(s, head, 0)
  }

  /** A match is the head, then a run of non-newline characters, then the
      newline that ends that run. */
  lemma MatchedTextShape(s: string, head: string)
    requires Search(s, head).Some?
    ensures var m := Search(s, head).value;
      && m.start + |head| < m.end <= |s|
      && s[m.start..m.end] == head + s[m.start + |head|..m.end - 1] + "\n"
      && forall j :: m.start + |head| <= j < m.end - 1 ==> s[j] != '\n'
  {
    var m := Search(s, head).value;
    SearchFromSpec(s, head, 0);
    SliceSplit(s, m.start, m.start + |head|, m.end);
  }

  /** Completeness and first-match-wins: when `head + v + "\n"` is present with
      no newline in `v`, and no match starts earlier, the search returns exactly
      that line. */
  lemma SearchFindsFirstLine(s: string, head: string, pre: string, v: string, post: string)
    requires s == pre + head + v + "\n" + post
    requires '\n' !in v
    requires forall k :: 0 <= k < |pre| ==> !MatchesAt(s, head, k)
    ensures Search(s, head) == Some(Span(|pre|, |pre| + |head| + |v| + 1))
    ensures s[|pre|..|pre| + |head| + |v| + 1] == head + v + "\n"
  {
    var i, e := |pre|, |pre| + |head| + |v|;
    LineLayout(s, pre, head, v, post);
    forall j | i + |head| <= j < e
      ensures s[j] != '\n'
    {
      assert s[j] in v;
    }
    LineEndAt(s, i + |head|, e);
    SearchFromFirst(s, head, 0, i);
  }

  /** Where the pieces of `pre + head + v + "\n" + post` sit. */
  lemma LineLayout(s: string, pre: string, head: string, v: string, post: string)
    requires s == pre + head + v + "\n" + post
    ensures OccursAt(s, head, |pre|)
    ensures s[|pre| + |head| + |v|] == '\n'
    ensures forall j :: |pre| + |head| <= j < |pre| + |head| + |v| ==> s[j] == v[j - |pre| - |head|]
    ensures s[|pre|..|pre| + |head| + |v| + 1] == head + v + "\n"
  {
    assert s[|pre|..|pre| + |head|] == head;
  }

  /** The first newline at or after `from` is at `e`. */
  lemma {:induction false} LineEndAt(s: string, from: nat, e: nat)
    requires from <= e < |s| && s[e] == '\n'
    requires forall j :: from <= j < e ==> s[j] != '\n'
    ensures LineEnd(s, from) == Some(e)
    decreases e - from
  {
    if from < e {
      LineEndAt(s, from + 1, e);
    }
  }

  /** A match at `i` with none between `from` and `i` is what the search from
      `from` returns. */
  lemma {:induction false} SearchFromFirst(s: string, head: string, from: nat, i: nat)
    requires from <= i && MatchesAt(s, head, i)
    requires forall k :: from <= k < i ==> !MatchesAt(s, head, k)
    ensures SearchFrom(s, head, from) == Some(Span(i, LineEnd(s, i + |head|).value + 1))
    decreases i - from
  {
    if from < i {
      SearchFromFirst(s, head, from + 1, i);
    }
  }

  /** Once the first matching line is complete, whatever text follows it, later
      occurrences of the field included, does not change the search result. */
  lemma {:induction false} SearchFromIgnoresSuffix(s: string, t: string, head: string, from: nat)
    requires SearchFrom(s, head, from).Some?
    ensures SearchFrom(s + t, head, from) == SearchFrom(s, head, from)
    decreases |s| - from
  {
    SearchFromSpec(s, head, from);
    var m := SearchFrom(s, head, from).value;
    var nl := LineEnd(s, m.start + |head|).value;
    assert from + |head| <= nl;
    LineEndAfter(s, from + |head|, nl);
    MatchesAtAppend(s, t, head, from);
    if from < m.start {
      SearchFromIgnoresSuffix(s, t, head, from + 1);
    }
  }

  /** There is a newline at or after `from` when there is one at `nl >= from`. */
  lemma LineEndAfter(s: string, from: nat, nl: nat)
    requires from <= nl < |s| && s[nl] == '\n'
    ensures LineEnd(s, from).Some?
  {
  }

  /** Where the line after position `k` is already complete in `s`, appending
      text does not change whether the pattern matches at `k`. */
  lemma MatchesAtAppend(s: string, t: string, head: string, k: nat)
    requires k + |head| <= |s| && LineEnd(s, k + |head|).Some?
    ensures MatchesAt(s + t, head, k) == MatchesAt(s, head, k)
    ensures MatchesAt(s, head, k) ==> LineEnd(s + t, k + |head|) == LineEnd(s, k + |head|)
  {
    SliceOfAppend(s, t, k, k + |head|);
    LineEndIgnoresSuffix(s, t, k + |head|);
  }

  lemma {:induction false} LineEndIgnoresSuffix(s: string, t: string, from: nat)
    requires LineEnd(s, from).Some?
    ensures LineEnd(s + t, from) == LineEnd(s, from)
    decreases |s| - from
  {
    if s[from] != '\n' {
      LineEndIgnoresSuffix(s, t, from + 1);
    }
  }

  /** A field on an unterminated last line never matches there. */
  lemma UnterminatedLineNeverMatches(s: string, head: string, k: nat)
    requires k + |head| <= |s|
    requires forall j :: k + |head| <= j < |s| ==> s[j] != '\n'
    ensures !MatchesAt(s, head, k)
  {
  }

  /** Every match starts at a newline, so a field on the very first line of the
      text (with no newline before it) is never the match. */
  lemma MatchStartsAtNewline(s: string, shape: Shape, name: string)
    requires Search(s, Prefix(shape) + name).Some?
    ensures s[Search(s, Prefix(shape) + name).value.start] == '\n'
  {
    var m := Search(s, Prefix(shape) + name).value;
    SearchFromSpec(s, Prefix(shape) + name, 0);
    assert s[m.start..m.start + |Prefix(shape) + name|][0] == '\n';
  }

  /** A nested pattern needs exactly one tab: a line indented with no tab or with
      two tabs does not match it (for a name that does not itself start with a
      tab). */
  lemma NestedNeedsExactlyOneTab(s: string, name: string, k: nat)
    requires |name| > 0 && name[0] != '\t'
    requires k + 2 < |s| && s[k] == '\n'
    requires s[k + 1] != '\t' || s[k + 2] == '\t'
    ensures !MatchesAt(s, Prefix(Nested) + name, k)
  {
    var head := Prefix(Nested) + name;
    assert head[1] == '\t' && head[2] == name[0];
  }

  /** A flat pattern does not match a tab-indented line. */
  lemma FlatRejectsIndentedLine(s: string, name: string, k: nat)
    requires |name| > 0 && name[0] != '\t'
    requires k + 1 < |s| && s[k + 1] == '\t'
    ensures !MatchesAt(s, Prefix(Flat) + name, k)
  {
    var head := Prefix(Flat) + name;
    assert head[1] == name[0];
  }
}
