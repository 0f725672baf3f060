/** The two `java.lang.String` operations the reply parser relies on: `trim()` and
    `split(",\\s*")` (which delegates to `Pattern.split` with limit 0), plus `Interleave`,
    which puts a text back together from its fields and separators. */
module JavaText {

  /** Characters `String.trim` removes: every code point up to and including U+0020. */
  predicate IsTrimSpace(c: char)
  {
    c as int <= 0x20
  }

  /** Characters the regex class `\s` matches: space, tab, line feed, vertical tab, form feed,
      carriage return. */
  predicate IsRegexSpace(c: char)
  {
    c == ' ' || 0x09 <= c as int <= 0x0D
  }

  /** `s[i..j]` is what is left of `s` once trim characters are removed from both ends: only trim
      characters lie outside it, and it neither starts nor ends with one. */
  ghost predicate TrimmedSlice(s: string, i: int, j: int)
  {
    && 0 <= i <= j <= |s|
    && (forall k :: 0 <= k < i ==> IsTrimSpace(s[k]))
    && (forall k :: j <= k < |s| ==> IsTrimSpace(s[k]))
    && (i < j ==> !IsTrimSpace(s[i]) && !IsTrimSpace(s[j - 1]))
  }

  /** The first scan of `trim`: skips trim characters from `from` onwards. */
  function TrimStart(s: string, from: nat): (st: nat)
    requires from <= |s|
    ensures from <= st <= |s|
    ensures forall k :: from <= k < st ==> IsTrimSpace(s[k])
    ensures st < |s| ==> !IsTrimSpace(s[st])
    decreases |s| - from
  {
    if from < |s| && IsTrimSpace(s[from]) then TrimStart(s, from + 1) else from
  }

  /** The second scan of `trim`: moves the end `len` left over trim characters, but not past `st`. */
  function TrimEnd(s: string, st: nat, len: nat): (en: nat)
    requires st <= len <= |s|
    ensures st <= en <= len
    ensures forall k :: en <= k < len ==> IsTrimSpace(s[k])
    ensures st < en ==> !IsTrimSpace(s[en - 1])
    decreases len
  {
    if st < len && IsTrimSpace(s[len - 1]) then TrimEnd(s, st, len - 1) else len
  }

  /** `String.trim()`: the result is the one trimmed slice of `s`, so exactly the trim
      characters at either end are removed (`TrimmedSliceExists` says there always is one). */
  function Trim(s: string): (r: string)
    ensures |r| <= |s|
    ensures r == [] || (!IsTrimSpace(r[0]) && !IsTrimSpace(r[|r| - 1]))
    ensures forall i, j :: TrimmedSlice(s, i, j) ==> r == s[i..j]
  {
    var st := TrimStart(s, 0);
    var en := TrimEnd(s, st, |s|);
    TrimmedSliceUnique(s, st, en);
    s[st..en]
  }

  /** Every text has a trimmed slice: the one the two scans of `trim` find. */
  lemma TrimmedSliceExists(s: string)
    ensures exists i, j :: TrimmedSlice(s, i, j)
  {
    var st := TrimStart(s, 0);
    var en := TrimEnd(s, st, |s|);
    assert TrimmedSlice(s, st, en);
  }

  /** A text has at most one trimmed slice. */
  lemma TrimmedSliceUnique(s: string, st: int, en: int)
    requires TrimmedSlice(s, st, en)
    ensures forall i, j :: TrimmedSlice(s, i, j) ==> s[i..j] == s[st..en]
  {
    forall i, j | TrimmedSlice(s, i, j) ensures s[i..j] == s[st..en] {
      SameBounds(s, i, j, st, en);
    }
  }

  /** Two trimmed slices of one text have the same bounds, unless both are empty. */
  lemma SameBounds(s: string, i: int, j: int, i': int, j': int)
    requires TrimmedSlice(s, i, j) && TrimmedSlice(s, i', j')
    ensures s[i..j] == s[i'..j']
  {
    if i < j {
      assert !IsTrimSpace(s[i]) && !IsTrimSpace(s[j - 1]);
    }
    if i' < j' {
      assert !IsTrimSpace(s[i']) && !IsTrimSpace(s[j' - 1]);
    }
  }

  /** Padding a text with trim characters on either side does not change what `trim` returns. */
  lemma TrimIgnoresPadding(pre: string, s: string, post: string)
    requires forall k :: 0 <= k < |pre| ==> IsTrimSpace(pre[k])
    requires forall k :: 0 <= k < |post| ==> IsTrimSpace(post[k])
    ensures Trim(pre + s + post) == Trim(s)
  {
    var i := TrimStart(s, 0);
    var j := TrimEnd(s, i, |s|);
    assert TrimmedSlice(s, i, j);
    PaddedSlice(pre, s, post, i, j);
  }

  /** A trimmed slice of `s` stays one, shifted, when `s` is padded with trim characters. */
  lemma PaddedSlice(pre: string, s: string, post: string, i: int, j: int)
    requires forall k :: 0 <= k < |pre| ==> IsTrimSpace(pre[k])
    requires forall k :: 0 <= k < |post| ==> IsTrimSpace(post[k])
    requires TrimmedSlice(s, i, j)
    ensures TrimmedSlice(pre + s + post, |pre| + i, |pre| + j)
    ensures (pre + s + post)[|pre| + i..|pre| + j] == s[i..j]
  {
    var t := pre + s + post;
    forall k | 0 <= k < |pre| + i ensures IsTrimSpace(t[k]) {
      if k < |pre| { assert t[k] == pre[k]; } else { assert t[k] == s[k - |pre|]; }
    }
    forall k | |pre| + j <= k < |t| ensures IsTrimSpace(t[k]) {
      if k < |pre| + |s| { assert t[k] == s[k - |pre|]; } else { assert t[k] == post[k - |pre| - |s|]; }
    }
    if i < j {
      assert t[|pre| + i] == s[i] && t[|pre| + j - 1] == s[j - 1];
    }
    assert t[|pre| + i..|pre| + j] == s[i..j];
  }

  /** A text that neither starts nor ends with a trim character is its own trim. */
  lemma TrimOfTrimmed(s: string)
    requires s == [] || (!IsTrimSpace(s[0]) && !IsTrimSpace(s[|s| - 1]))
    ensures Trim(s) == s
  {
    assert TrimmedSlice(s, 0, |s|);
  }

  /** Position of the first comma: where `find()` of `,\s*` starts its next match. */
  function CommaIndex(s: string, from: nat): (i: nat)
    requires from <= |s|
    requires ',' in s[from..]
    ensures from <= i < |s| && s[i] == ','
    ensures forall k :: from <= k < i ==> s[k] != ','
    decreases |s| - from
  {
    if s[from] == ',' then from
    else
      assert s[from..] == [s[from]] + s[from + 1..];
      CommaIndex(s, from + 1)
  }

  /** The `\s*` half of a separator match: drops the regex-space characters `s` starts with. */
  function SkipSpaces(s: string): (r: string)
    ensures |r| <= |s| && r == s[|s| - |r|..]
    ensures forall k :: 0 <= k < |s| - |r| ==> IsRegexSpace(s[k])
    ensures r == [] || !IsRegexSpace(r[0])
  {
    if |s| > 0 && IsRegexSpace(s[0]) then SkipSpaces(s[1..]) else s
  }

  /** A separator `split(",\\s*")` consumes whole: a comma followed by regex spaces. */
  predicate IsSeparator(sep: string)
  {
    |sep| >= 1 && sep[0] == ',' && forall k :: 1 <= k < |sep| ==> IsRegexSpace(sep[k])
  }

  predicate AllSeparators(seps: seq<string>)
  {
    forall k :: 0 <= k < |seps| ==> IsSeparator(seps[k])
  }

  /** The tokens `ts` with `seps[k]` between `ts[k]` and `ts[k + 1]`. */
  function Interleave(ts: seq<string>, seps: seq<string>): string
    requires |ts| == |seps| + 1
    decreases |seps|
  {
    if |seps| == 0 then ts[0] else ts[0] + seps[0] + Interleave(ts[1..], seps[1..])
  }

  /** An interleaving starts with the first token and ends with the last. */
  lemma {:induction false} InterleaveEnds(ts: seq<string>, seps: seq<string>)
    requires |ts| == |seps| + 1
    ensures var r := Interleave(ts, seps);
            |r| >= |ts[0]| && r[..|ts[0]|] == ts[0]
            && |r| >= |ts[|ts| - 1]| && r[|r| - |ts[|ts| - 1]|..] == ts[|ts| - 1]
    decreases |seps|
  {
    if |seps| > 0 {
      var rest := Interleave(ts[1..], seps[1..]);
      InterleaveEnds(ts[1..], seps[1..]);
      assert Interleave(ts, seps) == ts[0] + seps[0] + rest;
      assert ts[1..][|ts| - 2] == ts[|ts| - 1];
    }
  }

  /** `s` consists of the tokens `ts` with one separator between each two. */
  ghost predicate SplitsAs(s: string, ts: seq<string>, seps: seq<string>)
  {
    |ts| == |seps| + 1 && AllSeparators(seps) && Interleave(ts, seps) == s
  }

  /** A token, a separator and a text that splits as `rest` split as the token followed by `rest`. */
  lemma ConsSplits(head: string, sep: string, tail: string, rest: seq<string>, seps: seq<string>)
    requires IsSeparator(sep) && SplitsAs(tail, rest, seps)
    ensures SplitsAs(head + sep + tail, [head] + rest, [sep] + seps)
  {
    assert ([head] + rest)[1..] == rest;
    assert ([sep] + seps)[1..] == seps;
  }

  /** The separators that, put back between the fields of `s`, make up `s` again. */
  lemma {:induction false} FieldsReassemble(s: string) returns (seps: seq<string>)
    ensures SplitsAs(s, Fields(s), seps)
    decreases |s|
  {
    if ',' !in s {
      SingleSplits(s);
      seps := [];
    } else {
      var i := CommaIndex(s, 0);
      var tail := SkipSpaces(s[i + 1..]);
      var rest := FieldsReassemble(tail);
      var sep := s[i..|s| - |tail|];
      SeparatorAt(s, i, tail);
      ConsSplits(s[..i], sep, tail, Fields(tail), rest);
      FieldsStep(s);
      seps := [sep] + rest;
    }
  }

  /** `Fields` cuts exactly at matches of `,\\s*`: some separators put its fields back together. */
  lemma FieldsCoverText(s: string)
    ensures exists seps :: SplitsAs(s, Fields(s), seps)
  {
    var seps := FieldsReassemble(s);
  }

  /** The comma at `i` and the spaces `SkipSpaces` drops after it form a separator, and the text
      is what comes before it, the separator, and what `SkipSpaces` leaves. */
  lemma SeparatorAt(s: string, i: nat, tail: string)
    requires i < |s| && s[i] == ','
    requires tail == SkipSpaces(s[i + 1..])
    ensures i + 1 <= |s| - |tail|
    ensures IsSeparator(s[i..|s| - |tail|])
    ensures s == s[..i] + s[i..|s| - |tail|] + tail
  {
    var u := s[i + 1..];
    var e := |s| - |tail|;
    assert tail == u[|u| - |tail|..];
    assert tail == s[e..];
    forall k | i + 1 <= k < e ensures IsRegexSpace(s[k]) {
      assert s[k] == u[k - i - 1];
    }
    CommaThenSpaces(s, i, e);
    Split3(s, i, e);
  }

  /** A comma followed by regex spaces only is a separator. */
  lemma CommaThenSpaces(s: string, i: nat, e: nat)
    requires i < e <= |s| && s[i] == ','
    requires forall k :: i + 1 <= k < e ==> IsRegexSpace(s[k])
    ensures IsSeparator(s[i..e])
  {
    var sep := s[i..e];
    forall k | 1 <= k < |sep| ensures IsRegexSpace(sep[k]) {
      assert sep[k] == s[i + k];
    }
  }

  lemma Split3<T>(s: seq<T>, i: nat, e: nat)
    requires i <= e <= |s|
    ensures s == s[..i] + s[i..e] + s[e..]
  {
  }

  /** A text without a match is its own single field, with no separators. */
  lemma SingleSplits(s: string)
    ensures SplitsAs(s, [s], [])
  {
  }

  /** Every substring between matches of `,\s*`, before trailing empty ones are removed: the
      text up to the first comma, then the fields of what follows the comma and its spaces. */
  function Fields(s: string): (r: seq<string>)
    ensures |r| >= 1
    ensures |r[0]| <= |s| && r[0] == s[..|r[0]|]
    ensures ',' !in s ==> r == [s]
    ensures ',' in s ==> |r| >= 2
    ensures forall k :: 0 <= k < |r| ==> ',' !in r[k]
    ensures forall k :: 1 <= k < |r| ==> r[k] == [] || !IsRegexSpace(r[k][0])
    decreases |s|
  {
    if ',' !in s then [s]
    else
      var i := CommaIndex(s, 0);
      var tail := SkipSpaces(s[i + 1..]);
      var rest := Fields(tail);
      assert ',' !in s[..i] by {
        forall k | 0 <= k < i ensures s[..i][k] != ',' { }
      }
      ConsFields(s[..i], tail, rest);
      [s[..i]] + rest
  }

  /** Putting a comma-free head in front of the fields of a text that does not start with
      whitespace keeps the shape `Fields` promises. */
  lemma ConsFields(head: string, tail: string, rest: seq<string>)
    requires ',' !in head
    requires tail == [] || !IsRegexSpace(tail[0])
    requires |rest| >= 1 && |rest[0]| <= |tail| && rest[0] == tail[..|rest[0]|]
    requires forall k :: 0 <= k < |rest| ==> ',' !in rest[k]
    requires forall k :: 1 <= k < |rest| ==> rest[k] == [] || !IsRegexSpace(rest[k][0])
    ensures forall k :: 0 <= k < |rest| + 1 ==> ',' !in ([head] + rest)[k]
    ensures forall k :: 1 <= k < |rest| + 1 ==> ([head] + rest)[k] == [] || !IsRegexSpace(([head] + rest)[k][0])
  {
    var r := [head] + rest;
    assert forall k :: 1 <= k < |r| ==> r[k] == rest[k - 1];
    assert rest[0] == [] || rest[0][0] == tail[0];
  }

  /** Removes the empty strings at the end of `ts`. */
  function DropTrailingEmpty(ts: seq<string>): (r: seq<string>)
    ensures |r| <= |ts| && r == ts[..|r|]
    ensures r == [] || r[|r| - 1] != []
    ensures forall k :: |r| <= k < |ts| ==> ts[k] == []
  {
    if |ts| > 0 && ts[|ts| - 1] == [] then DropTrailingEmpty(ts[..|ts| - 1]) else ts
  }

  /** `s.split(",\\s*")`: with no match the whole text is the only token (even when it is empty);
      otherwise the fields, with the trailing empty ones removed. */
  function Split(s: string): (r: seq<string>)
    ensures ',' !in s ==> r == [s]
    ensures ',' in s ==> r == [] || r[|r| - 1] != []
    ensures |r| <= |Fields(s)| && r == Fields(s)[..|r|]
    ensures forall k :: |r| <= k < |Fields(s)| ==> Fields(s)[k] == []
  {
    if ',' !in s then [s] else DropTrailingEmpty(Fields(s))
  }

  /** Tokens an interleaving can carry through a split: none contains a comma, and none after
      the first starts with a regex space (the separator's `\s*` would swallow it). */
  ghost predicate Separable(ts: seq<string>)
  {
    && |ts| >= 1
    && (forall k :: 0 <= k < |ts| ==> ',' !in ts[k])
    && (forall k :: 1 <= k < |ts| ==> ts[k] == [] || !IsRegexSpace(ts[k][0]))
  }

  lemma {:induction false} SkipSpacesPrefix(w: string, u: string)
    requires forall k :: 0 <= k < |w| ==> IsRegexSpace(w[k])
    requires u == [] || !IsRegexSpace(u[0])
    ensures SkipSpaces(w + u) == u
    decreases |w|
  {
    if |w| > 0 {
      assert (w + u)[1..] == w[1..] + u;
      SkipSpacesPrefix(w[1..], u);
    } else {
      assert w + u == u;
    }
  }

  /** A text starting with a token, a separator and more text splits off that token first. */
  lemma FieldsOfCons(t: string, sep: string, rest: string)
    requires ',' !in t && IsSeparator(sep)
    requires rest == [] || !IsRegexSpace(rest[0])
    ensures Fields(t + sep + rest) == [t] + Fields(rest)
  {
    var s := t + (sep + rest);
    assert t + sep + rest == s;
    FirstCommaAfter(t, sep + rest);
    AfterFirstComma(t, sep, rest);
    SkipSpacesPrefix(sep[1..], rest);
    FieldsStep(s);
  }

  /** One step of `Fields`: the text up to the first comma, then the fields of what follows
      the comma and its whitespace. */
  lemma FieldsStep(s: string)
    requires ',' in s
    ensures Fields(s) == [s[..CommaIndex(s, 0)]] + Fields(SkipSpaces(s[CommaIndex(s, 0) + 1..]))
  {
  }

  /** What follows the comma a separator starts with. */
  lemma AfterFirstComma(t: string, sep: string, rest: string)
    requires |sep| >= 1
    ensures (t + (sep + rest))[|t| + 1..] == sep[1..] + rest
  {
  }

  /** The first comma of `t + u` is the one `u` starts with, when `t` has none. */
  lemma FirstCommaAfter(t: string, u: string)
    requires ',' !in t && |u| >= 1 && u[0] == ','
    ensures ',' in t + u
    ensures CommaIndex(t + u, 0) == |t|
    ensures (t + u)[..|t|] == t
  {
    var s := t + u;
    assert s[|t|] == ',';
    assert s[..|t|] == t;
  }

  /** An interleaving of separable tokens starts with a regex space only if its first token does. */
  lemma InterleaveHead(ts: seq<string>, seps: seq<string>)
    requires Separable(ts) && AllSeparators(seps) && |ts| == |seps| + 1
    requires ts[0] == [] || !IsRegexSpace(ts[0][0])
    ensures Interleave(ts, seps) == [] || !IsRegexSpace(Interleave(ts, seps)[0])
  {
    if |seps| > 0 && ts[0] == [] {
      assert Interleave(ts, seps)[0] == seps[0][0];
    }
  }

  lemma SeparableTail(ts: seq<string>)
    requires Separable(ts) && |ts| > 1
    ensures Separable(ts[1..])
    ensures ts[1] == [] || !IsRegexSpace(ts[1][0])
  {
    assert forall k :: 0 <= k < |ts| - 1 ==> ts[1..][k] == ts[k + 1];
  }

  lemma ConsTail<T>(xs: seq<T>)
    requires |xs| > 0
    ensures [xs[0]] + xs[1..] == xs
  {
  }

  /** The converse of the last `Fields` postcondition: whenever `s` is separable tokens with
      a separator between each two, those tokens are its fields, whatever the separators. */
  lemma {:induction false} FieldsOfInterleave(ts: seq<string>, seps: seq<string>)
    requires Separable(ts) && AllSeparators(seps) && |ts| == |seps| + 1
    ensures Fields(Interleave(ts, seps)) == ts
    decreases |seps|
  {
    if |seps| > 0 {
      var tail := ts[1..];
      SeparableTail(ts);
      assert AllSeparators(seps[1..]) by {
        forall k | 0 <= k < |seps| - 1 ensures IsSeparator(seps[1..][k]) {
          assert seps[1..][k] == seps[k + 1];
        }
      }
      var rest := Interleave(tail, seps[1..]);
      assert Interleave(ts, seps) == ts[0] + seps[0] + rest;
      InterleaveHead(tail, seps[1..]);
      FieldsOfCons(ts[0], seps[0], rest);
      FieldsOfInterleave(tail, seps[1..]);
      ConsTail(ts);
    }
  }

  /** Round trip: splitting an interleaving of separable tokens gives the tokens back, provided
      the last token is not empty when there are several (`split` would drop it). */
  lemma SplitOfInterleave(ts: seq<string>, seps: seq<string>)
    requires Separable(ts) && AllSeparators(seps) && |ts| == |seps| + 1
    requires |ts| >= 2 ==> ts[|ts| - 1] != []
    ensures Split(Interleave(ts, seps)) == ts
  {
    FieldsOfInterleave(ts, seps);
    var s := Interleave(ts, seps);
    if |ts| >= 2 {
      assert s == ts[0] + seps[0] + Interleave(ts[1..], seps[1..]);
      assert s[|ts[0]|] == ',';
      assert ',' in s;
    } else {
      assert s == ts[0];
    }
  }

  /** When every field is empty and there was a match, `split` returns no tokens at all. */
  lemma SplitOfEmptyFields(s: string)
    requires ',' in s
    requires forall k :: 0 <= k < |Fields(s)| ==> Fields(s)[k] == []
    ensures Split(s) == []
  {
  }

  /** A text made only of commas has only empty fields. */
  lemma FieldsOfCommas(s: string)
    requires forall k :: 0 <= k < |s| ==> s[k] == ','
    ensures forall k :: 0 <= k < |Fields(s)| ==> Fields(s)[k] == []
  {
    var ts := seq(|s| + 1, _ => "");
    var seps := seq(|s|, _ => ",");
    assert s == seq(|s|, _ => ',');
    CommasInterleave(|s|);
    assert Separable(ts);
    assert AllSeparators(seps);
    FieldsOfInterleave(ts, seps);
  }

  /** `n` commas are `n + 1` empty tokens with a comma between each two. */
  lemma {:induction false} CommasInterleave(n: nat)
    ensures Interleave(seq(n + 1, _ => ""), seq(n, _ => ",")) == seq(n, _ => ',')
  {
    if n > 0 {
      var ts := seq(n + 1, _ => "");
      var seps := seq(n, _ => ",");
      assert ts[0] == "" && seps[0] == ",";
      assert ts[1..] == seq(n, _ => "");
      assert seps[1..] == seq(n - 1, _ => ",");
      assert Interleave(ts, seps) == ts[0] + seps[0] + Interleave(ts[1..], seps[1..]);
      CommasInterleave(n - 1);
      assert seq(n, _ => ',') == [','] + seq(n - 1, _ => ',');
    }
  }
}
