/**
 * The defensive cleanup of model responses in `TextToSQLPipeline` (app.py): trim,
 * drop one opening Markdown fence (the tagged one when present, else a bare one)
 * and one closing fence, trim again; for the table-identification answer, then cut
 * out the span from the first `{` through the last `}` when there is one.
 */
module ResponseCleanup {
  import opened Text

  const Fence: string := "```"

  /** The opening fence `identify_tables` looks for first. */
  const JsonFence: string := "```json"

  /** The opening fence `generate_sql` looks for first. */
  const SqlFence: string := "```sql"

  /** One of the two tagged opening fences. */
  predicate IsTaggedFence(tag: string) {
    tag == JsonFence || tag == SqlFence
  }

  /** `t` occurs in `s` as a contiguous piece. */
  ghost predicate Infix(t: string, s: string) {
    exists i :: OccursAt(s, t, i)
  }

  lemma InfixOfSlice(s: string, i: nat, j: nat)
    requires i <= j <= |s|
    ensures Infix(s[i..j], s)
  {
    assert OccursAt(s, s[i..j], i);
  }

  lemma InfixTransitive(a: string, b: string, c: string)
    requires Infix(a, b) && Infix(b, c)
    ensures Infix(a, c)
  {
    var i :| OccursAt(b, a, i);
    var j :| OccursAt(c, b, j);
    assert forall k :: 0 <= k < |a| ==> a[k] == b[i + k] == c[j + i + k];
    assert c[j + i..j + i + |a|] == a;
    assert OccursAt(c, a, j + i);
  }

  lemma StripInfix(s: string)
    ensures Infix(Strip(s), s)
  {
    var r := Strip(s);
    var a := LeadingSpaces(s);
    assert r == s[a..a + |r|];
    InfixOfSlice(s, a, a + |r|);
  }

  /** Drop one opening fence: the tagged one if the text starts with it, else a bare one. */
  function DropOpening(s: string, tag: string): (r: string)
    requires IsTaggedFence(tag)
    ensures StartsWith(s, tag) ==> s == tag + r
    ensures !StartsWith(s, tag) && StartsWith(s, Fence) ==> s == Fence + r
    ensures !StartsWith(s, tag) && !StartsWith(s, Fence) ==> r == s
  {
    if StartsWith(s, tag) then s[|tag|..]
    else if StartsWith(s, Fence) then s[|Fence|..]
    else s
  }

  /** Drop one closing fence. */
  function DropClosing(s: string): (r: string)
    ensures EndsWith(s, Fence) ==> s == r + Fence
    ensures !EndsWith(s, Fence) ==> r == s
  {
    if EndsWith(s, Fence) then s[..|s| - |Fence|] else s
  }

  /**
   * The opening fence the cleanup cuts from the trimmed text `t`: `tag` when `t`
   * starts with it, else a bare fence when `t` starts with one, else nothing.
   */
  function OpeningCut(t: string, tag: string): (o: string)
    ensures |o| <= |t| && t[..|o|] == o
  {
    if StartsWith(t, tag) then tag else if StartsWith(t, Fence) then Fence else ""
  }

  /**
   * `r` is what the fence cleanup makes of `s`: `s` trimmed is its opening cut
   * followed by a rest `m`, and `r` is `m`, less one closing fence when `m` ends with
   * one, trimmed.
   */
  ghost predicate Unfenced(s: string, tag: string, r: string) {
    exists m :: Strip(s) == OpeningCut(Strip(s), tag) + m
                && r == Strip(if EndsWith(m, Fence) then m[..|m| - |Fence|] else m)
  }

  /** The fence cleanup shared by `identify_tables` and `generate_sql`, for opening fence `tag`. */
  function Unfence(s: string, tag: string): (r: string)
    requires IsTaggedFence(tag)
    ensures Trimmed(r)
    ensures Unfenced(s, tag, r)
  {
    var t := Strip(s);
    var m := DropOpening(t, tag);
    assert t == OpeningCut(t, tag) + m;
    Strip(DropClosing(m))
  }

  /** The cleanup's result is the only one: a text has exactly one unfenced form. */
  lemma UnfencedUnique(s: string, tag: string, r1: string, r2: string)
    requires Unfenced(s, tag, r1) && Unfenced(s, tag, r2)
    ensures r1 == r2
  {
    var t := Strip(s);
    var o := OpeningCut(t, tag);
    var m1 :| t == o + m1 && r1 == Strip(if EndsWith(m1, Fence) then m1[..|m1| - |Fence|] else m1);
    var m2 :| t == o + m2 && r2 == Strip(if EndsWith(m2, Fence) then m2[..|m2| - |Fence|] else m2);
    assert m1 == t[|o|..] == m2;
  }

  lemma DropOpeningInfix(s: string, tag: string)
    requires IsTaggedFence(tag)
    ensures Infix(DropOpening(s, tag), s)
  {
    var n := if StartsWith(s, tag) then |tag| else if StartsWith(s, Fence) then |Fence| else 0;
    assert DropOpening(s, tag) == s[n..] == s[n..|s|];
    InfixOfSlice(s, n, |s|);
  }

  lemma DropClosingInfix(s: string)
    ensures Infix(DropClosing(s), s)
  {
    var c := DropClosing(s);
    assert s[..|c|] == c;
    InfixOfSlice(s, 0, |c|);
  }

  /** The fence cleanup only cuts text away: its result is a piece of the answer. */
  lemma UnfenceInfix(s: string, tag: string)
    requires IsTaggedFence(tag)
    ensures Infix(Unfence(s, tag), s)
  {
    var a := Strip(s);
    var b := DropOpening(a, tag);
    var c := DropClosing(b);
    StripInfix(s);
    DropOpeningInfix(a, tag);
    DropClosingInfix(b);
    StripInfix(c);
    InfixTransitive(Strip(c), c, b);
    InfixTransitive(Strip(c), b, a);
    InfixTransitive(Strip(c), a, s);
  }

  /** `generate_sql`'s cleanup of the model's answer. */
  function CleanSql(response: string): (r: string)
    ensures Trimmed(r)
    ensures Unfenced(response, SqlFence, r)
  {
    Unfence(response, SqlFence)
  }

  /** Some `{` comes before some `}`. */
  predicate HasBracedSpan(s: string) {
    exists i, j :: 0 <= i < j < |s| && s[i] == '{' && s[j] == '}'
  }

  /** The test `start != -1 and end > start` holds exactly when some `{` comes before some `}`. */
  lemma BraceTest(s: string)
    ensures Find(s, '{') != -1 && RFind(s, '}') + 1 > Find(s, '{') <==> HasBracedSpan(s)
  {
    var a, e := Find(s, '{'), RFind(s, '}');
    if HasBracedSpan(s) {
      var i, j :| 0 <= i < j < |s| && s[i] == '{' && s[j] == '}';
      FindFirst(s, '{', i);
      RFindLast(s, '}', j);
      assert 0 <= a <= i < j <= e;
    }
    if a != -1 && e + 1 > a {
      assert s[a] == '{' && s[e] == '}';
      assert 0 <= a < e < |s|;
    }
  }

  /**
   * The text handed to `json.loads`: from the first `{` through the last `}` when a
   * `}` follows the first `{` (`start != -1 and end > start` with `end = rfind('}') + 1`),
   * and otherwise the whole text.
   */
  function BraceSpan(s: string): (r: string)
    ensures HasBracedSpan(s) ==> |r| >= 2 && r[0] == '{' && r[|r| - 1] == '}'
    ensures !HasBracedSpan(s) ==> r == s
  {
    var start := Find(s, '{');
    var end := RFind(s, '}') + 1;
    BraceTest(s);
    if start != -1 && end > start then
      assert s[start] == '{' && s[end - 1] == '}';
      s[start..end]
    else
      s
  }

  /**
   * The extracted span is the widest braced piece: it runs from a `{` with no `{`
   * before it through a `}` with no `}` after it.
   */
  lemma BraceSpanMaximal(s: string)
    requires HasBracedSpan(s)
    ensures 0 <= Find(s, '{') < RFind(s, '}')
    ensures BraceSpan(s) == s[Find(s, '{')..RFind(s, '}') + 1]
    ensures '{' !in s[..Find(s, '{')] && '}' !in s[RFind(s, '}') + 1..]
  {
    var a, e := Find(s, '{'), RFind(s, '}');
    BraceTest(s);
    assert a != -1 && e + 1 > a;
    assert s[a] == '{' && s[e] == '}';
    assert BraceSpan(s) == s[a..e + 1];
  }

  lemma BraceSpanInfix(s: string)
    ensures Infix(BraceSpan(s), s)
  {
    if HasBracedSpan(s) {
      BraceSpanMaximal(s);
      var a, b := Find(s, '{'), RFind(s, '}') + 1;
      assert BraceSpan(s) == s[a..b];
      InfixOfSlice(s, a, b);
    } else {
      assert BraceSpan(s) == s == s[0..|s|];
      InfixOfSlice(s, 0, |s|);
    }
  }

  /** `identify_tables`'s cleanup of the model's answer, up to the call of `json.loads`. */
  function CleanJson(response: string): string {
    BraceSpan(Unfence(response, JsonFence))
  }

  /** Both cleanups only cut text away: their results are pieces of the answer. */
  lemma CleanInfix(response: string)
    ensures Infix(CleanJson(response), response)
    ensures Infix(CleanSql(response), response)
  {
    var u := Unfence(response, JsonFence);
    UnfenceInfix(response, JsonFence);
    UnfenceInfix(response, SqlFence);
    BraceSpanInfix(u);
    InfixTransitive(BraceSpan(u), u, response);
  }

  /** Both tagged fences begin with a bare fence. */
  lemma TaggedIsFenced(s: string, tag: string)
    requires IsTaggedFence(tag)
    ensures StartsWith(s, tag) ==> StartsWith(s, Fence)
  {
    if StartsWith(s, tag) {
      assert s[..3] == s[..|tag|][..3] == tag[..3] == Fence;
    }
  }

  /** A trimmed text with no fence at either end passes the fence cleanup unchanged. */
  lemma UnfenceClean(s: string, tag: string)
    requires IsTaggedFence(tag)
    requires Trimmed(s) && !StartsWith(s, Fence) && !EndsWith(s, Fence)
    ensures Unfence(s, tag) == s
  {
    StripTrimmed(s);
    TaggedIsFenced(s, tag);
  }

  /** What follows the opening fence: a newline, the body, a newline and the closing fence. */
  lemma UnfenceRest(body: string)
    requires Trimmed(body)
    ensures Strip(DropClosing("\n" + body + "\n" + Fence)) == body
  {
    var b := "\n" + body + "\n" + Fence;
    var c := "\n" + body + "\n";
    assert b == c + Fence;
    assert b[|b| - 3..] == Fence;
    assert DropClosing(b) == c;
    StripPadded("\n", body, "\n");
  }

  /**
   * A trimmed body in a fenced block with the expected tag, `tag + "\n" + body + "\n```"`,
   * comes back as the body.
   */
  lemma UnfenceTagged(tag: string, body: string)
    requires IsTaggedFence(tag) && Trimmed(body)
    ensures Unfence(tag + "\n" + body + "\n" + Fence, tag) == body
  {
    var rest := "\n" + body + "\n" + Fence;
    var s := tag + rest;
    assert tag + "\n" + body + "\n" + Fence == s;
    assert s[0] == '`' && s[|s| - 1] == '`';
    StripTrimmed(s);
    assert s[..|tag|] == tag;
    assert DropOpening(s, tag) == rest;
    UnfenceRest(body);
  }

  /** A trimmed body in a bare fenced block, "```\n" + body + "\n```", comes back as the body. */
  lemma UnfenceBare(tag: string, body: string)
    requires IsTaggedFence(tag) && Trimmed(body)
    ensures Unfence(Fence + "\n" + body + "\n" + Fence, tag) == body
  {
    var rest := "\n" + body + "\n" + Fence;
    var s := Fence + rest;
    assert Fence + "\n" + body + "\n" + Fence == s;
    assert s[0] == '`' && s[|s| - 1] == '`';
    StripTrimmed(s);
    BareOpening(tag, rest);
    UnfenceRest(body);
  }

  /** A bare fence followed by a newline is not the tagged fence, and the bare fence is dropped. */
  lemma BareOpening(tag: string, rest: string)
    requires IsTaggedFence(tag)
    requires |rest| > 0 && rest[0] == '\n'
    ensures DropOpening(Fence + rest, tag) == rest
  {
    var s := Fence + rest;
    assert s[3] == '\n';
    assert !StartsWith(s, tag) by {
      assert |tag| > 3 && tag[3] != '\n';
      assert |s| < |tag| || s[..|tag|][3] != tag[3];
    }
    assert s[..3] == Fence;
    assert s[3..] == rest;
  }

  /**
   * A braced object surrounded by text with no `{` before it and no `}` after it is
   * extracted exactly.
   */
  lemma BraceSpanWrapped(pre: string, obj: string, post: string)
    requires |obj| >= 2 && obj[0] == '{' && obj[|obj| - 1] == '}'
    requires '{' !in pre && '}' !in post
    ensures BraceSpan(pre + obj + post) == obj
  {
    var s := pre + obj + post;
    var i := |pre| + |obj| - 1;
    assert s[|pre|] == '{' && s[..|pre|] == pre;
    assert s[i] == '}' && s[i + 1..] == post;
    FindUnique(s, '{', |pre|);
    RFindUnique(s, '}', i);
    assert HasBracedSpan(s);
    assert s[|pre|..i + 1] == obj;
  }

  /** A text that is itself a braced object is extracted whole. */
  lemma BraceSpanWhole(obj: string)
    requires |obj| >= 2 && obj[0] == '{' && obj[|obj| - 1] == '}'
    ensures BraceSpan(obj) == obj
  {
    assert obj[..0] == [];
    FindUnique(obj, '{', 0);
    assert obj[|obj|..] == [];
    RFindUnique(obj, '}', |obj| - 1);
    assert HasBracedSpan(obj);
    assert obj[0..|obj|] == obj;
  }

  /** Extracting the braced span twice extracts nothing more. */
  lemma BraceSpanIdempotent(s: string)
    ensures BraceSpan(BraceSpan(s)) == BraceSpan(s)
  {
    var r := BraceSpan(s);
    if HasBracedSpan(s) {
      BraceSpanWhole(r);
    } else {
      assert r == s;
    }
  }

  /**
   * The typical fenced answer with a JSON object, ```` ```json\n{...}\n``` ````, yields
   * the object.
   */
  lemma CleanJsonFenced(obj: string)
    requires |obj| >= 2 && obj[0] == '{' && obj[|obj| - 1] == '}'
    ensures CleanJson(JsonFence + "\n" + obj + "\n" + Fence) == obj
  {
    assert Trimmed(obj);
    UnfenceTagged(JsonFence, obj);
    BraceSpanWhole(obj);
  }
}
