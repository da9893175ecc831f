/** The conversation log kept by `ConversationManager`: an ordered list of
    role-tagged messages that starts with one system message, grows by a
    user/assistant pair per exchange and keeps only its last 20 entries.

    The manager object is modelled by its state, a `Manager` value holding
    the log and the system prompt; every method becomes a pure function
    from the old state to the new one (or to the value it returns). */
module ContextManager {

  datatype Role = System | User | Assistant

  datatype Message = Message(role: Role, content: string)

  type Log = seq<Message>

  /** The fields of a `ConversationManager`: `context` and `system_prompt`.
      Its third field, `max_messages`, is never reassigned and is the
      constant `MaxMessages`. */
  datatype Manager = Manager(context: Log, systemPrompt: string)

  /** The manager's `max_messages`. */
  const MaxMessages: nat := 20

  /** The `system_prompt` every manager is created with, character for
      character (the source writes it as a triple-quoted literal, so the
      line breaks and the indentation of its continuation lines are part
      of the text). */
  const DefaultSystemPrompt: string :=
    "You are a helpful and knowledgeable AI assistant. You are direct and concise in your responses, \n"
    + "        while maintaining a friendly tone. You help users with their questions across various topics including coding, analysis, \n"
    + "        and general knowledge. If you're unsure about something, you'll acknowledge it honestly."

  /** First line of every rendering of the log. */
  const Header: string := "Previous conversation:\n"

  function Min(a: int, b: int): int { if a <= b then a else b }

  /** `a` is a (not necessarily proper) suffix of `b`. */
  predicate IsSuffix(a: Log, b: Log) {
    |a| <= |b| && b[|b| - |a|..] == a
  }

  /** The message a log is seeded with. */
  function SystemMessage(prompt: string): Message { Message(System, prompt) }

  /** The two messages one exchange appends, user first. */
  function Exchange(user: string, bot: string): Log {
    [Message(User, user), Message(Assistant, bot)]
  }

  /** A manager whose log is only its own system message, as after
      `__init__` or `clear_context`. */
  predicate IsFresh(m: Manager) {
    m.context == [SystemMessage(m.systemPrompt)]
  }

  /** `__init__`: a single system message carrying the default prompt. */
  function New(): (m: Manager)
    ensures m.systemPrompt == DefaultSystemPrompt
    ensures |m.context| == 1
    ensures m.context[0].role == System && m.context[0].content == DefaultSystemPrompt
  {
    Manager([SystemMessage(DefaultSystemPrompt)], DefaultSystemPrompt)
  }

  /** Python's `log[-MaxMessages:]` applied when the log is over capacity:
      the newest `MaxMessages` entries, oldest dropped first. */
  function Trim(log: Log): (r: Log)
    ensures |r| == Min(|log|, MaxMessages)
    ensures IsSuffix(r, log)
  {
    if |log| > MaxMessages then log[|log| - MaxMessages..] else log
  }

  /** `add_to_context`: append the user message and the assistant message,
      then cut the log back to its last `MaxMessages` entries. Nothing
      shields the system message from the cut. */
  function AddToContext(m: Manager, user: string, bot: string): (r: Manager)
    ensures r.systemPrompt == m.systemPrompt
    ensures |r.context| == Min(|m.context| + 2, MaxMessages)
    ensures |r.context| >= 2 && r.context[|r.context| - 2..] == Exchange(user, bot)
    ensures IsSuffix(r.context, m.context + Exchange(user, bot))
    ensures IsSuffix(r.context[..|r.context| - 2], m.context)
    ensures |m.context| + 2 <= MaxMessages ==> r.context == m.context + Exchange(user, bot)
  {
    var grown := m.context + Exchange(user, bot);
    var log := Trim(grown);
    assert log[|log| - 2..] == grown[|grown| - 2..];
    assert log[..|log| - 2] == grown[|grown| - |log|..|grown| - 2];
    Manager(log, m.systemPrompt)
  }

  /** `get_context`: the log itself, not a copy and not a rendering. */
  function GetContext(m: Manager): (r: Log)
    ensures r == m.context
  {
    m.context
  }

  /** `clear_context`: back to a log holding only the manager's system
      message, whatever was there before. */
  function ClearContext(m: Manager): (r: Manager)
    ensures r.systemPrompt == m.systemPrompt
    ensures IsFresh(r)
    ensures |r.context| == 1 && r.context[0].role == System
  {
    Manager([SystemMessage(m.systemPrompt)], m.systemPrompt)
  }

  /** Clearing twice is clearing once, and clearing a fresh manager
      changes nothing. */
  lemma ClearIdempotent(m: Manager)
    ensures ClearContext(ClearContext(m)) == ClearContext(m)
    ensures IsFresh(m) ==> ClearContext(m) == m
  {
  }

  // ---------------------------------------------------------------------
  // get_formatted_context

  /** The label `get_formatted_context` prints for a role: only a user
      message is called "User"; the system message is labelled like the
      assistant. */
  function Label(role: Role): (r: string)
    ensures r == "User" <==> role == User
    ensures r == "Assistant" <==> role != User
  {
    if role == User then "User" else "Assistant"
  }

  /** One rendered line: label, colon, space, content, newline. */
  function Line(m: Message): string {
    Label(m.role) + ": " + m.content + "\n"
  }

  /** The lines of a log, oldest message first. */
  function Render(log: Log): string {
    if log == [] then "" else Render(log[..|log| - 1]) + Line(log[|log| - 1])
  }

  lemma ConcatAssoc(a: string, b: string, c: string)
    ensures a + (b + c) == a + b + c
  {
  }

  /** Rendering one more message of a log adds that message's line. */
  lemma RenderPrefix(log: Log, i: nat)
    requires i < |log|
    ensures Render(log[..i + 1]) == Render(log[..i]) + Line(log[i])
  {
    assert log[..i + 1][..i] == log[..i];
  }

  /** `get_formatted_context`: the header followed by one line per message,
      built by appending line after line as the source's loop does. The
      manager is only read. */
  method GetFormattedContext(m: Manager) returns (r: string)
    ensures r == Header + Render(m.context)
  {
    var log := m.context;
    r := Header;
    var i := 0;
    while i < |log|
      invariant 0 <= i <= |log|
      invariant r == Header + Render(log[..i])
    {
      RenderPrefix(log, i);
      ConcatAssoc(Header, Render(log[..i]), Line(log[i]));
      r := r + Line(log[i]);
      i := i + 1;
    }
    assert log[..|log|] == log;
  }

  /** The rendering of a concatenation is the concatenation of renderings. */
  lemma {:induction false} RenderAppend(a: Log, b: Log)
    ensures Render(a + b) == Render(a) + Render(b)
    decreases |b|
  {
    if b == [] {
      assert a + b == a;
    } else {
      var front, last := b[..|b| - 1], b[|b| - 1];
      assert (a + b)[..|a + b| - 1] == a + front;
      assert (a + b)[|a + b| - 1] == last;
      RenderAppend(a, front);
      ConcatAssoc(Render(a), Render(front), Line(last));
    }
  }

  /** A fresh or cleared manager renders as the header and one line
      carrying its system prompt under the "Assistant" label: no "User"
      line at all. */
  lemma FormatFresh(m: Manager)
    requires IsFresh(m)
    ensures Header + Render(m.context) == Header + "Assistant: " + m.systemPrompt + "\n"
  {
    assert m.context[..0] == [];
  }

  /** Below capacity, an exchange adds exactly its two lines, a "User" line
      and then an "Assistant" line, to the end of the rendering and leaves
      every earlier line as it was. */
  lemma FormatAfterAdd(m: Manager, user: string, bot: string)
    requires |m.context| + 2 <= MaxMessages
    ensures Render(AddToContext(m, user, bot).context)
         == Render(m.context) + Line(Message(User, user)) + Line(Message(Assistant, bot))
  {
    var ex := Exchange(user, bot);
    RenderAppend(m.context, ex);
    assert ex[..1][..0] == [];
    assert Render(ex[..1]) == Line(ex[0]);
    assert Render(ex) == Line(ex[0]) + Line(ex[1]);
    ConcatAssoc(Render(m.context), Line(ex[0]), Line(ex[1]));
  }

  // ---------------------------------------------------------------------
  // Histories: a manager followed by a sequence of exchanges

  /** The manager after `add_to_context` was called once per exchange, in
      order. */
  function Replay(m: Manager, exchanges: seq<(string, string)>): Manager {
    if exchanges == [] then m
    else
      var last := exchanges[|exchanges| - 1];
      AddToContext(Replay(m, exchanges[..|exchanges| - 1]), last.0, last.1)
  }

  /** All exchanges' messages, untrimmed, in order. */
  function Flatten(exchanges: seq<(string, string)>): Log {
    if exchanges == [] then []
    else
      var last := exchanges[|exchanges| - 1];
      Flatten(exchanges[..|exchanges| - 1]) + Exchange(last.0, last.1)
  }

  lemma {:induction false} FlattenLength(xs: seq<(string, string)>)
    ensures |Flatten(xs)| == 2 * |xs|
  {
    if xs != [] {
      FlattenLength(xs[..|xs| - 1]);
    }
  }

  lemma {:induction false} FlattenAppend(xs: seq<(string, string)>, ys: seq<(string, string)>)
    ensures Flatten(xs + ys) == Flatten(xs) + Flatten(ys)
    decreases |ys|
  {
    if ys == [] {
      assert xs + ys == xs;
    } else {
      var front, last := ys[..|ys| - 1], ys[|ys| - 1];
      assert (xs + ys)[..|xs + ys| - 1] == xs + front;
      assert (xs + ys)[|xs + ys| - 1] == last;
      FlattenAppend(xs, front);
    }
  }

  /** Flattened exchanges carry no system message. */
  lemma {:induction false} FlattenHasNoSystem(xs: seq<(string, string)>)
    ensures forall i :: 0 <= i < |Flatten(xs)| ==> Flatten(xs)[i].role != System
  {
    if xs != [] {
      FlattenHasNoSystem(xs[..|xs| - 1]);
    }
  }

  /** Trimming twice, with more messages appended in between, is the same as
      appending first and trimming once. */
  lemma TrimAppend(s: Log, p: Log)
    ensures Trim(Trim(s) + p) == Trim(s + p)
  {
    if |s| > MaxMessages {
      var t := Trim(s) + p;
      var u := s + p;
      var a := Trim(t);
      var b := Trim(u);
      assert |a| == |b| == MaxMessages;
      forall k | 0 <= k < MaxMessages
        ensures a[k] == b[k]
      {
        var i := |p| + k;
        assert a[k] == t[i];
        assert b[k] == u[|s| - MaxMessages + i];
        if i < MaxMessages {
          assert t[i] == Trim(s)[i] == s[|s| - MaxMessages + i];
        } else {
          assert t[i] == p[i - MaxMessages];
        }
      }
    }
  }

  /** One more exchange keeps the history equal to its reference
      definition. */
  lemma ReferenceStep(m: Manager, front: seq<(string, string)>, user: string, bot: string)
    requires Replay(m, front).context == Trim(m.context + Flatten(front))
    ensures Replay(m, front + [(user, bot)]).context
         == Trim(m.context + Flatten(front + [(user, bot)]))
  {
    var xs := front + [(user, bot)];
    var ex := Exchange(user, bot);
    var before := m.context + Flatten(front);
    assert Replay(m, xs) == AddToContext(Replay(m, front), user, bot) by {
      assert xs[..|xs| - 1] == front && xs[|xs| - 1] == (user, bot);
    }
    assert Flatten(xs) == Flatten(front) + ex by {
      assert xs[..|xs| - 1] == front && xs[|xs| - 1] == (user, bot);
    }
    assert AddToContext(Replay(m, front), user, bot).context == Trim(Trim(before) + ex);
    TrimAppend(before, ex);
    LogAssoc(m.context, Flatten(front), ex);
  }

  lemma LogAssoc(a: Log, b: Log, c: Log)
    ensures (a + b) + c == a + (b + c)
  {
  }

  /** Reference definition of the history: the starting log followed by
      every exchange, cut once to its newest `MaxMessages` entries; the
      system prompt never changes. */
  lemma {:induction false} ReplayMatchesReference(m: Manager, xs: seq<(string, string)>)
    requires |m.context| <= MaxMessages
    ensures Replay(m, xs).context == Trim(m.context + Flatten(xs))
    ensures Replay(m, xs).systemPrompt == m.systemPrompt
  {
    if xs == [] {
      assert m.context + [] == m.context;
    } else {
      var front, last := xs[..|xs| - 1], xs[|xs| - 1];
      ReplayMatchesReference(m, front);
      ReferenceStep(m, front, last.0, last.1);
      assert xs == front + [(last.0, last.1)];
    }
  }

  /** From a fresh manager the log holds the system message and two
      messages per exchange, until it reaches capacity; it never exceeds
      `MaxMessages`. */
  lemma ReplayLength(m: Manager, xs: seq<(string, string)>)
    requires IsFresh(m)
    ensures |Replay(m, xs).context| == Min(1 + 2 * |xs|, MaxMessages)
    ensures |Replay(m, xs).context| <= MaxMessages
  {
    ReplayMatchesReference(m, xs);
    FlattenLength(xs);
  }

  /** Through the first nine exchanges the system message stays at the head
      of the log, followed by every exchange in order. */
  lemma SystemMessageKept(m: Manager, xs: seq<(string, string)>)
    requires IsFresh(m) && |xs| <= 9
    ensures Replay(m, xs).context[0] == SystemMessage(m.systemPrompt)
    ensures Replay(m, xs).context == [SystemMessage(m.systemPrompt)] + Flatten(xs)
  {
    ReplayMatchesReference(m, xs);
    FlattenLength(xs);
    var all := m.context + Flatten(xs);
    assert |all| <= MaxMessages;
    assert Trim(all) == all;
  }

  /** From the tenth exchange on, the log is exactly the last ten exchanges:
      the system message has been cut off. */
  lemma LastTenExchanges(m: Manager, xs: seq<(string, string)>)
    requires IsFresh(m) && |xs| >= 10
    ensures Replay(m, xs).context == Flatten(xs[|xs| - 10..])
  {
    var k := |xs| - 10;
    ReplayMatchesReference(m, xs);
    assert xs == xs[..k] + xs[k..];
    FlattenAppend(xs[..k], xs[k..]);
    FlattenLength(xs[..k]);
    FlattenLength(xs[k..]);
    var all := m.context + Flatten(xs);
    assert all == (m.context + Flatten(xs[..k])) + Flatten(xs[k..]);
    assert |all| - MaxMessages == 1 + 2 * k;
    assert all[|all| - MaxMessages..] == Flatten(xs[k..]);
  }

  /** The system message is present in the log exactly while fewer than ten
      exchanges have been added to a fresh manager. */
  lemma SystemMessagePresence(m: Manager, xs: seq<(string, string)>)
    requires IsFresh(m)
    ensures (exists i :: 0 <= i < |Replay(m, xs).context| && Replay(m, xs).context[i].role == System)
        <==> |xs| < 10
  {
    if |xs| < 10 {
      SystemMessageKept(m, xs);
    } else {
      LastTenExchanges(m, xs);
      FlattenHasNoSystem(xs[|xs| - 10..]);
    }
  }

  /** Clearing after any history gives back the manager as created. */
  lemma ClearRestoresNew(xs: seq<(string, string)>)
    ensures ClearContext(Replay(New(), xs)) == New()
  {
    ReplayMatchesReference(New(), xs);
  }
}
