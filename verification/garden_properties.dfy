/** What the evaluation loop of src/main.rs and its hard-coded program
    promise. */
module GardenProperties {
  import opened Base
  import opened Garden

  /* ---------------------------------------------------------------------- */
  /* Keys: joining a path and splitting it back                              */

  /** A single segment without separators splits to itself. */
  lemma {:induction false} SplitSegment(a: string)
    requires NoSeparator(a)
    ensures Split(a) == [a]
    decreases |a|
  {
    if |a| > 0 {
      SplitSegment(a[1..]);
      assert [a[0]] + a[1..] == a;
    }
  }

  /** Splitting stops at the first separator. */
  lemma {:induction false} SplitAfterSegment(a: string, t: string)
    requires NoSeparator(a)
    ensures Split(a + [Separator] + t) == [a] + Split(t)
    decreases |a|
  {
    var s := a + [Separator] + t;
    if |a| == 0 {
      assert s[1..] == t;
    } else {
      assert s[1..] == a[1..] + [Separator] + t;
      SplitAfterSegment(a[1..], t);
      assert [a[0]] + a[1..] == a;
    }
  }

  /** Splitting a joined path gives the segments back when no segment
      contains the separator. */
  lemma {:induction false} SplitJoin(segments: seq<string>)
    requires |segments| > 0
    requires forall i :: 0 <= i < |segments| ==> NoSeparator(segments[i])
    ensures Split(Join(segments)) == segments
    decreases |segments|
  {
    if |segments| == 1 {
      SplitSegment(segments[0]);
    } else {
      SplitAfterSegment(segments[0], Join(segments[1..]));
      SplitJoin(segments[1..]);
    }
  }

  /** Joining the pieces of a split string gives the string back. */
  lemma {:induction false} JoinSplit(s: string)
    ensures Join(Split(s)) == s
    decreases |s|
  {
    if |s| > 0 {
      var rest := Split(s[1..]);
      JoinSplit(s[1..]);
      if s[0] == Separator {
        assert Join([""] + rest) == "" + [Separator] + Join(rest);
      } else {
        var pieces := [[s[0]] + rest[0]] + rest[1..];
        if |rest| > 1 {
          assert pieces[1..] == rest[1..];
          assert Join(rest) == rest[0] + [Separator] + Join(rest[1..]);
        }
      }
      assert s == [s[0]] + s[1..];
    }
  }

  /** Two expressions share a key only when their paths are equal, as long
      as paths are non-empty and their segments free of separators. */
  lemma KeyInjective(e1: Expr, e2: Expr)
    requires |e1.path| > 0 && |e2.path| > 0
    requires forall i :: 0 <= i < |e1.path| ==> NoSeparator(e1.path[i])
    requires forall i :: 0 <= i < |e2.path| ==> NoSeparator(e2.path[i])
    ensures Key(e1) == Key(e2) <==> e1.path == e2.path
  {
    SplitJoin(e1.path);
    SplitJoin(e2.path);
  }

  /** The keys of the hard-coded program. */
  lemma GardenKeys(http: string -> HttpReply, json: string -> Option<JsonValue>)
    ensures var p := GardenProgram(http, json);
            Key(p[0]) == "fetch/url" && Key(p[1]) == "fetch/res" && Key(p[2]) == "fetch/fact"
  {
  }

  /* ---------------------------------------------------------------------- */
  /* The evaluation loop                                                     */

  /** Reference semantics of the loop: the context after the first `n`
      expressions, or `None` if one of them panics. */
  function Prefix(exprs: seq<Expr>, n: nat): Option<Context>
    requires n <= |exprs|
  {
    if n == 0 then Some(map[])
    else
      match Prefix(exprs, n - 1)
      case None => None
      case Some(ctx) =>
        match exprs[n - 1].eval(ctx)
        case Panicked(_) => None
        case Returned(v) => Some(ctx[Key(exprs[n - 1]) := v])
  }

  /** Running the loop from `i`, after a panic-free prefix of length `i`,
      gives the reference context, or the first panic after `i`. */
  lemma {:induction false} FoldFrom(exprs: seq<Expr>, i: nat, ctx: Context)
    requires i <= |exprs| && Prefix(exprs, i) == Some(ctx)
    ensures Fold(exprs, i, ctx).Finished? <==> Prefix(exprs, |exprs|).Some?
    ensures Fold(exprs, i, ctx).Finished? ==> Fold(exprs, i, ctx).context == Prefix(exprs, |exprs|).value
    ensures Fold(exprs, i, ctx).Aborted? ==>
              var j := Fold(exprs, i, ctx).index;
              && i <= j < |exprs| && Prefix(exprs, j).Some?
              && exprs[j].eval(Prefix(exprs, j).value) == Panicked(Fold(exprs, i, ctx).message)
    decreases |exprs| - i
  {
    if i < |exprs| {
      match exprs[i].eval(ctx)
      case Panicked(_) =>
        PrefixStaysNone(exprs, i + 1, |exprs|);
      case Returned(v) =>
        FoldFrom(exprs, i + 1, ctx[Key(exprs[i]) := v]);
    }
  }

  /** Once an expression has panicked, no longer prefix completes. */
  lemma {:induction false} PrefixStaysNone(exprs: seq<Expr>, m: nat, n: nat)
    requires m <= n <= |exprs| && Prefix(exprs, m).None?
    ensures Prefix(exprs, n).None?
    decreases n - m
  {
    if m < n {
      PrefixStaysNone(exprs, m + 1, n);
    }
  }

  /** `main` ends with the reference context exactly when no expression
      panics, and otherwise reports the first expression that panicked,
      evaluated against the context its predecessors built. */
  lemma RunProgramSpec(exprs: seq<Expr>)
    ensures RunProgram(exprs).Finished? <==> Prefix(exprs, |exprs|).Some?
    ensures RunProgram(exprs).Finished? ==> RunProgram(exprs).context == Prefix(exprs, |exprs|).value
    ensures RunProgram(exprs).Aborted? ==>
              var j := RunProgram(exprs).index;
              && j < |exprs| && Prefix(exprs, j).Some?
              && exprs[j].eval(Prefix(exprs, j).value) == Panicked(RunProgram(exprs).message)
  {
    FoldFrom(exprs, 0, map[]);
  }

  /** The context an expression is evaluated against holds exactly the keys
      of the expressions before it. */
  lemma {:induction false} PrefixKeys(exprs: seq<Expr>, n: nat)
    requires n <= |exprs| && Prefix(exprs, n).Some?
    ensures Prefix(exprs, n).value.Keys == set j | 0 <= j < n :: Key(exprs[j])
  {
    if n > 0 {
      PrefixKeys(exprs, n - 1);
      var before := set j | 0 <= j < n - 1 :: Key(exprs[j]);
      var after := set j | 0 <= j < n :: Key(exprs[j]);
      assert after == before + {Key(exprs[n - 1])} by {
        forall k | k in after ensures k in before + {Key(exprs[n - 1])} {
          var j :| 0 <= j < n && k == Key(exprs[j]);
          if j < n - 1 {
            assert k in before;
          }
        }
      }
    }
  }

  /** Each expression's result is stored under its key, and stays there as
      long as no later expression has the same key. */
  lemma {:induction false} PrefixValue(exprs: seq<Expr>, n: nat, j: nat)
    requires j < n <= |exprs| && Prefix(exprs, n).Some?
    requires forall k :: j < k < n ==> Key(exprs[k]) != Key(exprs[j])
    ensures Prefix(exprs, j).Some?
    ensures exprs[j].eval(Prefix(exprs, j).value).Returned?
    ensures Key(exprs[j]) in Prefix(exprs, n).value
    ensures Prefix(exprs, n).value[Key(exprs[j])] == exprs[j].eval(Prefix(exprs, j).value).value
  {
    if n > j + 1 {
      PrefixValue(exprs, n - 1, j);
    }
  }

  /* ---------------------------------------------------------------------- */
  /* The hard-coded expressions                                              */

  /** `fetch/res` panics when `fetch/url` is absent or not a string, and
      otherwise returns the body fetched from that URL or panics with the
      network failure. */
  lemma FetchResSpec(http: string -> HttpReply, ctx: Context)
    ensures "fetch/url" !in ctx ==> FetchRes(http, ctx).Panicked?
    ensures "fetch/url" in ctx && !ctx["fetch/url"].Str? ==>
              FetchRes(http, ctx) == Panicked("Expected string for url")
    ensures "fetch/url" in ctx && ctx["fetch/url"].Str? ==>
              var reply := http(ctx["fetch/url"].s);
              && (reply.Body? ==> FetchRes(http, ctx) == Returned(Str(reply.text)))
              && (!reply.Body? ==> FetchRes(http, ctx).Panicked?)
  {
  }

  /** The `fact` text is the reply's `fact` field when that field is a
      string, and `"missing"` for every other reply. */
  lemma FactOfSpec(parsed: JsonValue)
    ensures parsed.JObject? && "fact" in parsed.fields && parsed.fields["fact"].JString? ==>
              FactOf(parsed) == parsed.fields["fact"].s
    ensures !(parsed.JObject? && "fact" in parsed.fields && parsed.fields["fact"].JString?) ==>
              FactOf(parsed) == "missing"
  {
  }

  /** `fetch/fact` panics when `fetch/res` is absent, not a string or not
      JSON, and otherwise returns the `fact` text of the parsed reply. */
  lemma FetchFactSpec(json: string -> Option<JsonValue>, ctx: Context)
    ensures "fetch/res" !in ctx ==> FetchFact(json, ctx).Panicked?
    ensures "fetch/res" in ctx && !ctx["fetch/res"].Str? ==>
              FetchFact(json, ctx) == Panicked("Expected string for res")
    ensures "fetch/res" in ctx && ctx["fetch/res"].Str? ==>
              var parsed := json(ctx["fetch/res"].s);
              && (parsed.Some? ==> FetchFact(json, ctx) == Returned(Str(FactOf(parsed.value))))
              && (parsed.None? ==> FetchFact(json, ctx) == Panicked("Failed to parse JSON"))
  {
  }

  /** The whole program: with a reply body that parses, the context ends
      with exactly the three entries `fetch/url`, `fetch/res` and
      `fetch/fact`; a network failure stops it at `fetch/res` with the
      message of the failing step, a reply that is not JSON stops it at
      `fetch/fact`. */
  lemma GardenRun(http: string -> HttpReply, json: string -> Option<JsonValue>)
    ensures var run := RunProgram(GardenProgram(http, json));
            var reply := http(CatFactUrl);
            && (reply.Body? && json(reply.text).Some? ==>
                  run == Finished(map["fetch/url" := Str(CatFactUrl),
                                      "fetch/res" := Str(reply.text),
                                      "fetch/fact" := Str(FactOf(json(reply.text).value))]))
            && (reply.Body? && json(reply.text).None? ==> run == Aborted(2, "Failed to parse JSON"))
            && (reply.RequestFailed? ==> run == Aborted(1, "Failed GET"))
            && (reply.ReadFailed? ==> run == Aborted(1, "Failed to read response body"))
  {
    var p := GardenProgram(http, json);
    GardenKeys(http, json);
    var c1 := map["fetch/url" := Str(CatFactUrl)];
    assert Fold(p, 0, map[]) == Fold(p, 1, c1);
    var reply := http(CatFactUrl);
    if reply.Body? {
      var c2 := c1["fetch/res" := Str(reply.text)];
      assert Fold(p, 1, c1) == Fold(p, 2, c2);
    }
  }
}
