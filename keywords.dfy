/** The rule matcher: an ordered keyword table searched by substring, first match wins, and
    the plain "does any keyword occur" search over a keyword list. */
module Keywords {
  import opened Frame
  import opened Text

  /** (keyword, label) pairs in declaration order; a Python dict iterates in this order. */
  type Table = seq<(string, string)>

  /** `for keyword, label in table.items(): if keyword in text: return label`, with `None`
      when the loop runs out. */
  function FirstHit(text: string, table: Table): (r: Option<string>)
    ensures r.Some? ==> exists k :: 0 <= k < |table| && table[k].1 == r.value && Contains(text, table[k].0)
  {
    if table == [] then None
    else if Contains(text, table[0].0) then Some(table[0].1)
    else FirstHit(text, table[1..])
  }

  /** Entry `k` is the first entry of `table` whose keyword occurs in `text`. */
  predicate FirstHitAt(text: string, table: Table, k: int) {
    0 <= k < |table|
    && Contains(text, table[k].0)
    && forall j :: 0 <= j < k ==> !Contains(text, table[j].0)
  }

  /** The search answers the label of the earliest entry whose keyword occurs in the text:
      the table's order decides, not where in the text a keyword stands. */
  lemma {:induction false} FirstHitIsEarliest(text: string, table: Table, k: int)
    requires FirstHitAt(text, table, k)
    ensures FirstHit(text, table) == Some(table[k].1)
  {
    if k > 0 {
      assert !Contains(text, table[0].0);
      assert FirstHitAt(text, table[1..], k - 1);
      FirstHitIsEarliest(text, table[1..], k - 1);
    }
  }

  /** Conversely, a label the search answers comes from the earliest matching entry. */
  lemma {:induction false} FirstHitHasEarliest(text: string, table: Table)
    requires FirstHit(text, table).Some?
    ensures exists k :: FirstHitAt(text, table, k) && table[k].1 == FirstHit(text, table).value
  {
    if !Contains(text, table[0].0) {
      FirstHitHasEarliest(text, table[1..]);
      var k :| FirstHitAt(text, table[1..], k) && table[1..][k].1 == FirstHit(text, table[1..]).value;
      assert FirstHitAt(text, table, k + 1);
    } else {
      assert FirstHitAt(text, table, 0);
    }
  }

  /** The search finds nothing exactly when no keyword of the table occurs in the text. */
  lemma {:induction false} FirstHitNone(text: string, table: Table)
    ensures FirstHit(text, table).None? <==> forall k :: 0 <= k < |table| ==> !Contains(text, table[k].0)
  {
    if table != [] {
      FirstHitNone(text, table[1..]);
      assert forall k :: 1 <= k < |table| ==> table[k] == table[1..][k - 1];
    }
  }

  /** `for keyword in keywords: if keyword in text: found = True; break`. */
  predicate AnyHit(text: string, keywords: seq<string>): (hit: bool)
    ensures hit ==> exists k :: 0 <= k < |keywords| && Contains(text, keywords[k])
  {
    keywords != [] && (Contains(text, keywords[0]) || AnyHit(text, keywords[1..]))
  }

  /** The flag is raised exactly when some keyword of the list occurs in the text. */
  lemma {:induction false} AnyHitIff(text: string, keywords: seq<string>)
    ensures AnyHit(text, keywords) <==> exists k :: 0 <= k < |keywords| && Contains(text, keywords[k])
  {
    if keywords != [] {
      AnyHitIff(text, keywords[1..]);
      assert forall k :: 1 <= k < |keywords| ==> keywords[k] == keywords[1..][k - 1];
    }
  }
}
