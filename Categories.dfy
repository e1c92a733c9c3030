/**
 * The category list (app/api/categories/route.ts, repeated as getCategories in
 * app/tasks/page.tsx): the rows the database returns, already distinct and sorted,
 * are trimmed and the ones that trim to nothing are dropped.
 */
module Categories {
  import opened Wrappers
  import opened Js
  import opened Http

  /** `rows.map((row) => row.category?.trim()).filter(Boolean)`. */
  function CleanCategories(rows: seq<Option<string>>): (r: seq<string>)
    ensures |r| <= |rows|
    ensures forall i :: 0 <= i < |r| ==> r[i] != "" && Trim(r[i]) == r[i]
  {
    if rows == [] then []
    else
      var rest := CleanCategories(rows[1..]);
      match rows[0]
      case None => rest
      case Some(c) =>
        if Trim(c) == "" then rest
        else
          TrimIdempotent(c);
          [Trim(c)] + rest
  }

  /** `GET`: 401 without a signed-in user, otherwise the cleaned category list. */
  function GetCategories(userId: Option<string>, rows: seq<Option<string>>): (r: Response<seq<string>>)
    ensures r.Error? <==> !TruthyString(userId)
    ensures r.Error? ==> r.status == 401 && r.message == UnauthorizedMessage
    ensures r.Ok? ==> r.value == CleanCategories(rows)
  {
    if !TruthyString(userId) then Error(401, UnauthorizedMessage)
    else Ok(CleanCategories(rows))
  }

  /** The pass works row by row: cleaning a concatenation concatenates the cleaned parts, in order. */
  lemma {:induction false} CleanAppend(a: seq<Option<string>>, b: seq<Option<string>>)
    ensures CleanCategories(a + b) == CleanCategories(a) + CleanCategories(b)
  {
    if a == [] {
      assert a + b == b;
    } else {
      assert (a + b)[0] == a[0] && (a + b)[1..] == a[1..] + b;
      CleanAppend(a[1..], b);
    }
  }

  /** What one row contributes: its trimmed category, unless it is null or trims to nothing. */
  lemma CleanSingle(row: Option<string>)
    ensures CleanCategories([row]) == if row.Some? && !AllWhiteSpace(row.value) then [Trim(row.value)] else []
  {
    if row.Some? {
      TrimEmptyIff(row.value);
    }
  }

  /** A category is listed exactly when some row trims to it and it is not empty. */
  lemma {:induction false} CleanMembership(rows: seq<Option<string>>, x: string)
    ensures x in CleanCategories(rows) <==>
            x != "" && exists i :: 0 <= i < |rows| && rows[i].Some? && Trim(rows[i].value) == x
  {
    if rows != [] {
      CleanMembership(rows[1..], x);
      if x != "" && (exists i :: 0 <= i < |rows| && rows[i].Some? && Trim(rows[i].value) == x) {
        var i :| 0 <= i < |rows| && rows[i].Some? && Trim(rows[i].value) == x;
        if i > 0 {
          assert rows[1..][i - 1] == rows[i];
        }
      }
      if x in CleanCategories(rows[1..]) {
        var i :| 0 <= i < |rows[1..]| && rows[1..][i].Some? && Trim(rows[1..][i].value) == x;
        assert rows[i + 1] == rows[1..][i];
      }
    }
  }

  /** Running the pass again over its own output changes nothing. */
  lemma {:induction false} CleanIdempotent(cats: seq<string>)
    requires forall i :: 0 <= i < |cats| ==> cats[i] != "" && Trim(cats[i]) == cats[i]
    ensures CleanCategories(Present(cats)) == cats
  {
    if cats != [] {
      assert Present(cats)[1..] == Present(cats[1..]);
      CleanIdempotent(cats[1..]);
    }
  }

  /** The categories as non-null rows. */
  function Present(cats: seq<string>): (rows: seq<Option<string>>)
    ensures |rows| == |cats| && forall i :: 0 <= i < |cats| ==> rows[i] == Some(cats[i])
  {
    if cats == [] then [] else [Some(cats[0])] + Present(cats[1..])
  }

  /**
   * Distinctness is decided by the database before trimming, so two rows that differ
   * only in trailing space both survive, as the same name.
   */
  lemma TrailingSpaceDuplicates(name: string)
    requires name != [] && !IsWhiteSpace(name[0]) && !IsWhiteSpace(name[|name| - 1])
    ensures CleanCategories([Some(name), Some(name + " ")]) == [name, name]
  {
    PaddedRowCleans(name, []);
    assert name + [] == name;
    PaddedRowCleans(name, " ");
    assert [Some(name), Some(name + " ")] == [Some(name)] + [Some(name + " ")];
    CleanAppend([Some(name)], [Some(name + " ")]);
  }

  /** A row holding a name followed by white space cleans to the name alone. */
  lemma PaddedRowCleans(name: string, pad: string)
    requires name != [] && !IsWhiteSpace(name[0]) && !IsWhiteSpace(name[|name| - 1])
    requires AllWhiteSpace(pad)
    ensures CleanCategories([Some(name + pad)]) == [name]
  {
    TrimExact([], name, pad);
    assert [] + name + pad == name + pad;
    assert !AllWhiteSpace(name + pad) by {
      assert (name + pad)[0] == name[0];
    }
    CleanSingle(Some(name + pad));
  }

  /** A row that is only white space contributes nothing, wherever it stands. */
  lemma WhiteSpaceRowDropped(before: seq<Option<string>>, ws: string, after: seq<Option<string>>)
    requires AllWhiteSpace(ws)
    ensures CleanCategories(before + [Some(ws)] + after) == CleanCategories(before) + CleanCategories(after)
  {
    CleanAppend(before + [Some(ws)], after);
    CleanAppend(before, [Some(ws)]);
    CleanSingle(Some(ws));
  }
}
