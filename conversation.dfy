/** normalizeForApi: turning the chat page's message list into the message
    list sent to the model. Blank messages are dropped; consecutive messages
    of one side are merged, separated by a blank line; leading assistant
    entries are removed; an empty result becomes a single user greeting. */
module Conversation {
  import opened Text

  datatype Option<T> = None | Some(value: T)

  /** A message on the page; its text may be missing. */
  datatype Message = Message(text: Option<string>, isUser: bool)

  datatype Role = User | Assistant

  /** A message as the chat endpoint receives it. */
  datatype ApiMessage = ApiMessage(role: Role, content: string)

  /** What joins two merged messages of the same side. */
  const Separator: string := "\n\n"

  /** The fallback content, the Arabic word "marhaban" (U+0645 U+0631
      U+062D U+0628 U+064B U+0627). */
  const Greeting: string := "\U{0645}\U{0631}\U{062D}\U{0628}\U{064B}\U{0627}"

  function RoleOf(m: Message): Role
  {
    if m.isUser then User else Assistant
  }

  /** The trimmed text of m, the empty string when the text is missing. */
  function ContentOf(m: Message): (c: string)
    ensures Trimmed(c)
  {
    Trim(if m.text.Some? then m.text.value else "")
  }

  // ---------------------------------------------------------------- the loop, as functions

  /** One pass of the for loop: skip a blank message, append its content to
      the last entry when that entry has the same role, or add a new entry. */
  function Absorb(out: seq<ApiMessage>, m: Message): seq<ApiMessage>
  {
    var content := ContentOf(m);
    if content == [] then out
    else if out != [] && out[|out| - 1].role == RoleOf(m) then
      var last := out[|out| - 1];
      out[|out| - 1 := last.(content := Trim(last.content + Separator + content))]
    else out + [ApiMessage(RoleOf(m), content)]
  }

  /** The list the for loop has built after the messages msgs. */
  function Collect(msgs: seq<Message>): seq<ApiMessage>
  {
    if msgs == [] then [] else Absorb(Collect(msgs[..|msgs| - 1]), msgs[|msgs| - 1])
  }

  /** The while loop: remove entries from the front until the first one is
      the user's. */
  function DropLeadingAssistant(out: seq<ApiMessage>): (r: seq<ApiMessage>)
    ensures r == [] || r[0].role == User
  {
    if out != [] && out[0].role != User then DropLeadingAssistant(out[1..]) else out
  }

  /** The value normalizeForApi returns. */
  function Normalized(msgs: seq<Message>): seq<ApiMessage>
  {
    var out := DropLeadingAssistant(Collect(msgs));
    if out == [] then [ApiMessage(User, Greeting)] else out
  }

  /** normalizeForApi. The for loop grows `out`, replacing its last entry on
      a merge; the while loop shifts entries off its front. */
  method NormalizeForApi(msgs: seq<Message>) returns (result: seq<ApiMessage>)
    ensures result == Normalized(msgs)
  {
    var out: seq<ApiMessage> := [];
    for i := 0 to |msgs|
      invariant out == Collect(msgs[..i])
    {
      var m := msgs[i];
      assert msgs[..i + 1][..i] == msgs[..i];
      assert Collect(msgs[..i + 1]) == Absorb(out, m);
      var role := if m.isUser then User else Assistant;
      var content := Trim(if m.text.Some? then m.text.value else "");
      assert role == RoleOf(m) && content == ContentOf(m);
      if content == [] {
        continue;
      }
      if |out| > 0 && out[|out| - 1].role == role {
        var last := out[|out| - 1];
        out := out[|out| - 1 := last.(content := Trim(last.content + Separator + content))];
      } else {
        out := out + [ApiMessage(role, content)];
      }
    }
    assert msgs[..|msgs|] == msgs;
    while |out| > 0 && out[0].role != User
      invariant DropLeadingAssistant(out) == DropLeadingAssistant(Collect(msgs))
      decreases |out|
    {
      out := out[1..];
    }
    if |out| > 0 {
      result := out;
    } else {
      result := [ApiMessage(User, Greeting)];
    }
  }

  // ---------------------------------------------------------------- well-formedness

  /** Every content is non-empty and has no surrounding white space, and no
      two neighbouring entries have the same role. */
  predicate WellFormed(out: seq<ApiMessage>)
  {
    (forall k :: 0 <= k < |out| ==> out[k].content != [] && Trimmed(out[k].content))
    && (forall k :: 0 <= k < |out| - 1 ==> out[k].role != out[k + 1].role)
  }

  /** Joining two trimmed non-empty contents with the separator gives a
      trimmed string, so the `trim` after a merge changes nothing. */
  lemma {:induction false} MergeTrimNoOp(a: string, c: string)
    requires a != [] && Trimmed(a) && c != [] && Trimmed(c)
    ensures Trim(a + Separator + c) == a + Separator + c
  {
    var j := a + Separator + c;
    assert j[0] == a[0] && j[|j| - 1] == c[|c| - 1];
    TrimOfTrimmed(j);
  }

  /** One pass of the loop keeps the list well formed. */
  lemma {:induction false} AbsorbWellFormed(out: seq<ApiMessage>, m: Message)
    requires WellFormed(out)
    ensures WellFormed(Absorb(out, m))
  {
    var content := ContentOf(m);
    var a := Absorb(out, m);
    if content == [] {
    } else if out != [] && out[|out| - 1].role == RoleOf(m) {
      var last := out[|out| - 1];
      MergeTrimNoOp(last.content, content);
      assert a == out[|out| - 1 := last.(content := last.content + Separator + content)];
      assert forall k :: 0 <= k < |a| ==> a[k].role == out[k].role;
    } else {
      assert a == out + [ApiMessage(RoleOf(m), content)];
    }
  }

  /** The for loop's list is well formed. */
  lemma {:induction false} CollectWellFormed(msgs: seq<Message>)
    ensures WellFormed(Collect(msgs))
  {
    if msgs != [] {
      CollectWellFormed(msgs[..|msgs| - 1]);
      AbsorbWellFormed(Collect(msgs[..|msgs| - 1]), msgs[|msgs| - 1]);
    }
  }

  /** On a well-formed list the while loop removes at most one entry: the
      first, when it is the assistant's. */
  lemma {:induction false} DropAtMostOne(out: seq<ApiMessage>)
    requires WellFormed(out)
    ensures out != [] && out[0].role == Assistant ==> DropLeadingAssistant(out) == out[1..]
    ensures out == [] || out[0].role == User ==> DropLeadingAssistant(out) == out
  {
    if out != [] && out[0].role == Assistant && |out| > 1 {
      assert out[1..][0].role == User;
    }
  }

  /** A suffix of a well-formed list is well formed. */
  lemma {:induction false} SuffixWellFormed(out: seq<ApiMessage>, j: nat)
    requires WellFormed(out) && j <= |out|
    ensures WellFormed(out[j..])
  {
    var s := out[j..];
    assert forall k :: 0 <= k < |s| ==> s[k] == out[j + k];
  }

  /** The result is never empty, starts with the user, and is well formed. */
  lemma {:induction false} NormalizedShape(msgs: seq<Message>)
    ensures Normalized(msgs) != [] && Normalized(msgs)[0].role == User
    ensures WellFormed(Normalized(msgs))
  {
    var c := Collect(msgs);
    var d := DropLeadingAssistant(c);
    CollectWellFormed(msgs);
    DropAtMostOne(c);
    if c != [] && c[0].role == Assistant {
      SuffixWellFormed(c, 1);
    }
    if d == [] {
      var g := Greeting;
      assert !IsSpace(g[0]) && !IsSpace(g[|g| - 1]);
    }
  }

  // ---------------------------------------------------------------- the greeting fallback

  /** Some entry of out is the user's. */
  predicate UserIn(out: seq<ApiMessage>)
  {
    exists k :: 0 <= k < |out| && out[k].role == User
  }

  /** m is the user's and its text is not blank. */
  predicate Typed(m: Message)
  {
    m.isUser && ContentOf(m) != []
  }

  /** Some user message of msgs has non-blank text. */
  predicate UserTyped(msgs: seq<Message>)
  {
    exists j :: 0 <= j < |msgs| && Typed(msgs[j])
  }

  /** The while loop empties the list exactly when no entry is the user's. */
  lemma {:induction false} DropEmptyIff(out: seq<ApiMessage>)
    ensures DropLeadingAssistant(out) == [] <==> !UserIn(out)
  {
    if out != [] && out[0].role != User {
      DropEmptyIff(out[1..]);
      if UserIn(out) {
        var k :| 0 <= k < |out| && out[k].role == User;
        assert out[1..][k - 1].role == User;
      }
      if UserIn(out[1..]) {
        var k :| 0 <= k < |out[1..]| && out[1..][k].role == User;
        assert out[k + 1].role == User;
      }
    } else if out != [] {
      assert out[0].role == User;
    }
  }

  /** One pass adds a user entry exactly when the message is the user's and
      not blank; a merge keeps every role. */
  lemma {:induction false} AbsorbUser(out: seq<ApiMessage>, m: Message)
    ensures UserIn(Absorb(out, m)) <==> UserIn(out) || Typed(m)
  {
    var a := Absorb(out, m);
    if ContentOf(m) != [] {
      if out != [] && out[|out| - 1].role == RoleOf(m) {
        assert forall k :: 0 <= k < |out| ==> a[k].role == out[k].role;
        if m.isUser {
          assert out[|out| - 1].role == User;
        }
      } else {
        assert forall k :: 0 <= k < |out| ==> a[k] == out[k];
        assert a[|out|].role == RoleOf(m);
      }
    }
  }

  /** The for loop's list has a user entry exactly when some user message
      has non-blank text. */
  lemma {:induction false} CollectUserIff(msgs: seq<Message>)
    ensures UserIn(Collect(msgs)) <==> UserTyped(msgs)
  {
    if msgs != [] {
      var p := msgs[..|msgs| - 1];
      var m := msgs[|msgs| - 1];
      CollectUserIff(p);
      AbsorbUser(Collect(p), m);
      if UserTyped(msgs) && !Typed(m) {
        var j :| 0 <= j < |msgs| && Typed(msgs[j]);
        assert j != |msgs| - 1;
        assert p[j] == msgs[j];
      }
      if UserTyped(p) {
        var j :| 0 <= j < |p| && Typed(p[j]);
        assert msgs[j] == p[j];
      }
    }
  }

  /** The greeting is sent exactly when no user message has non-blank text;
      otherwise the result is the merged list with at most its first entry
      (an assistant one) removed. */
  lemma {:induction false} GreetingFallback(msgs: seq<Message>)
    ensures !UserTyped(msgs) <==> DropLeadingAssistant(Collect(msgs)) == []
    ensures !UserTyped(msgs) ==> Normalized(msgs) == [ApiMessage(User, Greeting)]
    ensures UserTyped(msgs) ==>
              (Normalized(msgs) == Collect(msgs)
               || (Collect(msgs)[0].role == Assistant && Normalized(msgs) == Collect(msgs)[1..]))
  {
    CollectUserIff(msgs);
    DropEmptyIff(Collect(msgs));
    CollectWellFormed(msgs);
    DropAtMostOne(Collect(msgs));
  }

  // ---------------------------------------------------------------- what the merge keeps

  /** The non-blank messages, in order, as entries of their own. */
  function Kept(msgs: seq<Message>): seq<ApiMessage>
  {
    if msgs == [] then []
    else
      var k := Kept(msgs[..|msgs| - 1]);
      var m := msgs[|msgs| - 1];
      if ContentOf(m) == [] then k else k + [ApiMessage(RoleOf(m), ContentOf(m))]
  }

  function Contents(xs: seq<ApiMessage>): (cs: seq<string>)
    ensures |cs| == |xs| && forall k :: 0 <= k < |xs| ==> cs[k] == xs[k].content
  {
    if xs == [] then [] else Contents(xs[..|xs| - 1]) + [xs[|xs| - 1].content]
  }

  /** `xs.join(Separator)`. */
  function JoinAll(xs: seq<string>): string
  {
    if xs == [] then []
    else if |xs| == 1 then xs[0]
    else JoinAll(xs[..|xs| - 1]) + Separator + xs[|xs| - 1]
  }

  lemma {:induction false} JoinSnoc(ys: seq<string>, c: string)
    ensures JoinAll(ys + [c]) == if ys == [] then c else JoinAll(ys) + Separator + c
  {
    assert (ys + [c])[..|ys|] == ys;
  }

  /** ks cut into runs of one role, in order: each entry joins the run before
      it when their roles agree and starts a new run otherwise. */
  function Runs(ks: seq<ApiMessage>): (gs: seq<seq<ApiMessage>>)
    ensures forall k :: 0 <= k < |gs| ==> gs[k] != []
    ensures gs == [] <==> ks == []
  {
    if ks == [] then []
    else
      var g := Runs(ks[..|ks| - 1]);
      var x := ks[|ks| - 1];
      if g != [] && g[|g| - 1][0].role == x.role then g[|g| - 1 := g[|g| - 1] + [x]]
      else g + [[x]]
  }

  /** The runs one after the other. */
  function Flatten(gs: seq<seq<ApiMessage>>): seq<ApiMessage>
  {
    if gs == [] then [] else Flatten(gs[..|gs| - 1]) + gs[|gs| - 1]
  }

  /** Put back together, the runs give ks. */
  lemma {:induction false} RunsFlatten(ks: seq<ApiMessage>)
    ensures Flatten(Runs(ks)) == ks
  {
    if ks != [] {
      var p := ks[..|ks| - 1];
      var x := ks[|ks| - 1];
      var g: seq<seq<ApiMessage>> := Runs(p);
      var gs: seq<seq<ApiMessage>> := Runs(ks);
      RunsFlatten(p);
      assert p + [x] == ks;
      if g != [] && g[|g| - 1][0].role == x.role {
        var n := |g| - 1;
        assert gs == g[n := g[n] + [x]];
        assert gs[..n] == g[..n];
        assert Flatten(g) == Flatten(g[..n]) + g[n];
        assert Flatten(gs) == Flatten(g[..n]) + (g[n] + [x]);
      } else {
        assert gs == g + [[x]];
        assert gs[..|g|] == g;
      }
    }
  }

  /** Every entry of a run has the run's role. */
  lemma {:induction false} RunsUniform(ks: seq<ApiMessage>)
    ensures forall k, i :: 0 <= k < |Runs(ks)| && 0 <= i < |Runs(ks)[k]| ==>
              Runs(ks)[k][i].role == Runs(ks)[k][0].role
  {
    if ks != [] {
      var p := ks[..|ks| - 1];
      var x := ks[|ks| - 1];
      var g: seq<seq<ApiMessage>> := Runs(p);
      RunsUniform(p);
      if g != [] && g[|g| - 1][0].role == x.role {
        var n := |g| - 1;
        assert Runs(ks) == g[n := g[n] + [x]];
      } else {
        assert Runs(ks) == g + [[x]];
      }
    }
  }

  /** Neighbouring runs differ in role. */
  lemma {:induction false} RunsAlternate(ks: seq<ApiMessage>)
    ensures forall k :: 0 <= k < |Runs(ks)| - 1 ==> Runs(ks)[k][0].role != Runs(ks)[k + 1][0].role
  {
    if ks != [] {
      var p := ks[..|ks| - 1];
      var x := ks[|ks| - 1];
      var g: seq<seq<ApiMessage>> := Runs(p);
      var gs: seq<seq<ApiMessage>> := Runs(ks);
      RunsAlternate(p);
      if g != [] && g[|g| - 1][0].role == x.role {
        var n := |g| - 1;
        assert gs == g[n := g[n] + [x]];
        forall k | 0 <= k < |gs| ensures gs[k][0] == g[k][0] {
        }
      } else {
        assert gs == g + [[x]];
      }
    }
  }

  /** Runs are the maximal runs: put back together they give ks, every entry
      of a run has the run's role, and neighbouring runs differ in role. */
  lemma RunsShape(ks: seq<ApiMessage>)
    ensures Flatten(Runs(ks)) == ks
    ensures forall k, i :: 0 <= k < |Runs(ks)| && 0 <= i < |Runs(ks)[k]| ==>
              Runs(ks)[k][i].role == Runs(ks)[k][0].role
    ensures forall k :: 0 <= k < |Runs(ks)| - 1 ==> Runs(ks)[k][0].role != Runs(ks)[k + 1][0].role
  {
    RunsFlatten(ks);
    RunsUniform(ks);
    RunsAlternate(ks);
  }

  /** The entry the merge makes of one run: the run's role, and its contents
      joined by blank lines. */
  function RunEntry(g: seq<ApiMessage>): ApiMessage
    requires g != []
  {
    ApiMessage(g[0].role, JoinAll(Contents(g)))
  }

  /** out holds, position by position, the entries of the runs gs. */
  predicate Matches(out: seq<ApiMessage>, gs: seq<seq<ApiMessage>>)
  {
    |out| == |gs| && forall k :: 0 <= k < |out| ==> gs[k] != [] && out[k] == RunEntry(gs[k])
  }

  /** One more entry either extends the last run or starts a new one. */
  lemma RunsSnoc(ks: seq<ApiMessage>, e: ApiMessage)
    ensures var g := Runs(ks);
      Runs(ks + [e]) == if g != [] && g[|g| - 1][0].role == e.role then g[|g| - 1 := g[|g| - 1] + [e]] else g + [[e]]
  {
    assert (ks + [e])[..|ks|] == ks;
  }

  /** A run's entry after one more message of its role: the contents gain a
      blank line and the new content. */
  lemma RunEntrySnoc(g: seq<ApiMessage>, e: ApiMessage)
    requires g != []
    ensures RunEntry(g + [e]) == ApiMessage(g[0].role, RunEntry(g).content + Separator + e.content)
  {
    assert (g + [e])[..|g|] == g;
    assert Contents(g + [e]) == Contents(g) + [e.content];
    JoinSnoc(Contents(g), e.content);
  }

  lemma MatchesSnoc(out: seq<ApiMessage>, gs: seq<seq<ApiMessage>>, g: seq<ApiMessage>)
    requires Matches(out, gs) && g != []
    ensures Matches(out + [RunEntry(g)], gs + [g])
  {
  }

  lemma MatchesLast(out: seq<ApiMessage>, gs: seq<seq<ApiMessage>>, g: seq<ApiMessage>)
    requires Matches(out, gs) && out != [] && g != []
    ensures out[|out| - 1] == RunEntry(gs[|gs| - 1])
    ensures Matches(out[|out| - 1 := RunEntry(g)], gs[|gs| - 1 := g])
  {
  }

  /** An entry of the last run's role, merged into the last entry, extends
      the last run. */
  lemma {:induction false} MatchesMerge(out: seq<ApiMessage>, ks: seq<ApiMessage>, e: ApiMessage)
    requires Matches(out, Runs(ks)) && out != [] && out[|out| - 1].role == e.role
    ensures Matches(out[|out| - 1 := ApiMessage(e.role, out[|out| - 1].content + Separator + e.content)],
                    Runs(ks + [e]))
  {
    var g: seq<seq<ApiMessage>> := Runs(ks);
    var n := |out| - 1;
    MatchesLast(out, g, g[n] + [e]);
    RunsSnoc(ks, e);
    RunEntrySnoc(g[n], e);
  }

  /** An entry of another role than the last one starts a new run. */
  lemma {:induction false} MatchesAppend(out: seq<ApiMessage>, ks: seq<ApiMessage>, e: ApiMessage)
    requires Matches(out, Runs(ks)) && !(out != [] && out[|out| - 1].role == e.role)
    ensures Matches(out + [e], Runs(ks + [e]))
  {
    var g: seq<seq<ApiMessage>> := Runs(ks);
    RunsSnoc(ks, e);
    if out != [] {
      MatchesLast(out, g, g[|g| - 1]);
    }
    assert Contents([e]) == [e.content];
    MatchesSnoc(out, g, [e]);
  }

  /** One non-blank message: merging into the last entry extends the last
      run, adding an entry starts a new one. */
  lemma AbsorbRuns(out: seq<ApiMessage>, ks: seq<ApiMessage>, m: Message)
    requires WellFormed(out) && Matches(out, Runs(ks)) && ContentOf(m) != []
    ensures Matches(Absorb(out, m), Runs(ks + [ApiMessage(RoleOf(m), ContentOf(m))]))
  {
    var e := ApiMessage(RoleOf(m), ContentOf(m));
    if out != [] && out[|out| - 1].role == RoleOf(m) {
      MergeTrimNoOp(out[|out| - 1].content, e.content);
      MatchesMerge(out, ks, e);
    } else {
      MatchesAppend(out, ks, e);
    }
  }

  /** The for loop leaves one entry per maximal run of the non-blank
      messages: entry k has the role of run k and the contents of run k
      joined by blank lines. */
  lemma {:induction false} CollectKeeps(msgs: seq<Message>)
    ensures |Collect(msgs)| == |Runs(Kept(msgs))|
    ensures forall k :: 0 <= k < |Collect(msgs)| ==> Collect(msgs)[k] == RunEntry(Runs(Kept(msgs))[k])
    ensures JoinAll(Contents(Collect(msgs))) == JoinAll(Contents(Kept(msgs)))
    ensures Collect(msgs) == [] <==> Kept(msgs) == []
  {
    CollectRuns(msgs);
    var gs: seq<seq<ApiMessage>> := Runs(Kept(msgs));
    var out := Collect(msgs);
    assert Contents(out) == RunJoins(gs);
    JoinRuns(gs);
    RunsFlatten(Kept(msgs));
  }

  /** Joining two non-empty lists joins their joins. */
  lemma {:induction false} JoinAppend(xs: seq<string>, ys: seq<string>)
    requires xs != [] && ys != []
    ensures JoinAll(xs + ys) == JoinAll(xs) + Separator + JoinAll(ys)
  {
    var p, y := ys[..|ys| - 1], ys[|ys| - 1];
    assert ys == p + [y];
    assert xs + ys == (xs + p) + [y];
    JoinSnoc(xs + p, y);
    if p != [] {
      JoinAppend(xs, p);
      JoinSnoc(p, y);
    }
  }

  /** Each run's contents joined by blank lines. */
  function RunJoins(gs: seq<seq<ApiMessage>>): (js: seq<string>)
    ensures |js| == |gs| && forall k :: 0 <= k < |gs| ==> js[k] == JoinAll(Contents(gs[k]))
  {
    if gs == [] then [] else RunJoins(gs[..|gs| - 1]) + [JoinAll(Contents(gs[|gs| - 1]))]
  }

  lemma ContentsAppend(a: seq<ApiMessage>, b: seq<ApiMessage>)
    ensures Contents(a + b) == Contents(a) + Contents(b)
  {
  }

  /** Joining the joined runs is joining their concatenation. */
  lemma {:induction false} JoinRuns(gs: seq<seq<ApiMessage>>)
    requires forall k :: 0 <= k < |gs| ==> gs[k] != []
    ensures JoinAll(RunJoins(gs)) == JoinAll(Contents(Flatten(gs)))
  {
    if gs != [] {
      var p, g := gs[..|gs| - 1], gs[|gs| - 1];
      var j := JoinAll(Contents(g));
      JoinRuns(p);
      JoinSnoc(RunJoins(p), j);
      ContentsAppend(Flatten(p), g);
      if p != [] {
        FlattenNonEmpty(p);
        JoinAppend(Contents(Flatten(p)), Contents(g));
      } else {
        assert Flatten(gs) == g;
      }
    }
  }

  lemma {:induction false} FlattenNonEmpty(gs: seq<seq<ApiMessage>>)
    requires gs != [] && gs[|gs| - 1] != []
    ensures Flatten(gs) != []
  {
  }

  lemma {:induction false} CollectRuns(msgs: seq<Message>)
    ensures Matches(Collect(msgs), Runs(Kept(msgs)))
  {
    if msgs != [] {
      var p := msgs[..|msgs| - 1];
      var m := msgs[|msgs| - 1];
      CollectRuns(p);
      assert Collect(msgs) == Absorb(Collect(p), m);
      if ContentOf(m) == [] {
        assert Collect(msgs) == Collect(p) && Kept(msgs) == Kept(p);
      } else {
        assert Kept(msgs) == Kept(p) + [ApiMessage(RoleOf(m), ContentOf(m))];
        CollectWellFormed(p);
        AbsorbRuns(Collect(p), Kept(p), m);
      }
    }
  }

  /** Two user messages followed by an assistant one: the user's texts share
      the first entry, the assistant's text is the second. */
  lemma MergeExample()
    ensures Collect([Message(Some("a"), true), Message(Some("b"), true), Message(Some("c"), false)])
         == [ApiMessage(User, "a\n\nb"), ApiMessage(Assistant, "c")]
  {
    var ma, mb, mc := Message(Some("a"), true), Message(Some("b"), true), Message(Some("c"), false);
    assert ContentOf(ma) == "a" && ContentOf(mb) == "b" && ContentOf(mc) == "c";
    assert [ma, mb, mc][..2] == [ma, mb] && [ma, mb][..1] == [ma] && [ma][..0] == [];
    assert Collect([ma]) == [ApiMessage(User, "a")];
    MergeTrimNoOp("a", "b");
    assert "a" + Separator + "b" == "a\n\nb";
    assert Collect([ma, mb]) == Absorb(Collect([ma]), mb);
    assert Collect([ma, mb]) == [ApiMessage(User, "a\n\nb")];
  }
}
