/**
 Turning a stored chat history into the alternating turns the model API requires.
 */
module ChatTurns {
  import opened Prelude

  datatype ChatMessage = ChatMessage(role: string, content: string)

  datatype Turn = Turn(user: bool, text: string)

  /** The role of the user's side in course chats, and in the chats about a node. */
  const STUDENT: string := "student"
  const USER: string := "user"

  /** Everything that is not the user's is the assistant's. */
  predicate IsUser(role: string, m: ChatMessage) {
    m.role == role
  }

  // ---------------------------------------------------------------- what the turns should be

  /** The length of the longest prefix spoken by one side. */
  function RunLength(role: string, history: seq<ChatMessage>): (n: nat)
    requires history != []
    ensures 1 <= n <= |history|
    ensures forall i :: 0 <= i < n ==> IsUser(role, history[i]) == IsUser(role, history[0])
    ensures n < |history| ==> IsUser(role, history[n]) != IsUser(role, history[0])
  {
    if |history| == 1 || IsUser(role, history[1]) != IsUser(role, history[0]) then 1
    else 1 + RunLength(role, history[1..])
  }

  /** The contents joined by newlines. */
  function Joined(history: seq<ChatMessage>): string
    requires history != []
  {
    if |history| == 1 then history[0].content else Joined(Front(history)) + "\n" + Last(history).content
  }

  /** One turn for each maximal run of messages of the same side. */
  function Turns(role: string, history: seq<ChatMessage>): seq<Turn> {
    if history == [] then []
    else
      var n := RunLength(role, history);
      [Turn(IsUser(role, history[0]), Joined(history[..n]))] + Turns(role, history[n..])
  }

  ghost predicate Alternating(turns: seq<Turn>) {
    forall i :: 0 < i < |turns| ==> turns[i].user != turns[i - 1].user
  }

  lemma {:induction false} TurnsAlternate(role: string, history: seq<ChatMessage>)
    ensures Alternating(Turns(role, history))
    ensures history != [] <==> Turns(role, history) != []
    ensures history != [] ==> Turns(role, history)[0].user == (history[0].role == role)
    decreases |history|
  {
    if history != [] {
      TurnsAlternate(role, history[RunLength(role, history)..]);
    }
  }

  /** The texts joined by newlines. */
  function JoinedTurns(turns: seq<Turn>): string
    requires turns != []
  {
    if |turns| == 1 then turns[0].text else turns[0].text + "\n" + JoinedTurns(turns[1..])
  }

  lemma {:induction false} JoinedSplits(history: seq<ChatMessage>, n: nat)
    requires 0 < n < |history|
    ensures Joined(history) == Joined(history[..n]) + "\n" + Joined(history[n..])
    decreases |history|
  {
    if n == |history| - 1 {
      assert history[..n] == Front(history) && history[n..] == [Last(history)];
    } else {
      JoinedSplits(Front(history), n);
      assert Front(history)[..n] == history[..n] && Front(history)[n..] == Front(history[n..]);
      JoinedSplitsLast(history, n);
    }
  }

  lemma {:induction false} JoinedSplitsLast(history: seq<ChatMessage>, n: nat)
    requires 0 < n < |history| - 1
    requires Joined(Front(history)) == Joined(history[..n]) + "\n" + Joined(Front(history[n..]))
    ensures Joined(history) == Joined(history[..n]) + "\n" + Joined(history[n..])
  {
  }

  /** No message is lost, repeated or moved: joining the turns gives the joined history back. */
  lemma {:induction false} NothingIsLost(role: string, history: seq<ChatMessage>)
    requires history != []
    ensures Turns(role, history) != [] && JoinedTurns(Turns(role, history)) == Joined(history)
    decreases |history|
  {
    var n := RunLength(role, history);
    if n == |history| {
      assert history[..n] == history && history[n..] == [];
    } else {
      NothingIsLost(role, history[n..]);
      JoinedSplits(history, n);
      assert Turns(role, history)[1..] == Turns(role, history[n..]);
    }
  }

  // ---------------------------------------------------------------- the merging loop

  /** What the loop makes of one more message. */
  function Extended(role: string, turns: seq<Turn>, m: ChatMessage): seq<Turn> {
    if turns != [] && Last(turns).user == IsUser(role, m)
    then Front(turns) + [Turn(IsUser(role, m), Last(turns).text + "\n" + m.content)]
    else turns + [Turn(IsUser(role, m), m.content)]
  }

  lemma {:induction false} RunOfExtended(role: string, history: seq<ChatMessage>, m: ChatMessage)
    requires history != []
    ensures RunLength(role, history + [m]) ==
            if RunLength(role, history) == |history| && IsUser(role, m) == IsUser(role, history[0])
            then |history| + 1 else RunLength(role, history)
  {
    var n, longer := RunLength(role, history), RunLength(role, history + [m]);
    assert forall i :: 0 <= i < |history| ==> (history + [m])[i] == history[i];
    if n == |history| {
      assert (history + [m])[n] == m;
    } else {
      assert IsUser(role, (history + [m])[n]) != IsUser(role, history[0]);
    }
  }

  lemma {:induction false} TurnsExtend(role: string, history: seq<ChatMessage>, m: ChatMessage)
    ensures Turns(role, history + [m]) == Extended(role, Turns(role, history), m)
    ensures Last(Turns(role, history + [m])).user == (m.role == role)
    decreases |history|
  {
    if history == [] {
      assert history + [m] == [m] && [m][..1] == [m] && [m][1..] == [];
    } else {
      var n := RunLength(role, history);
      RunOfExtended(role, history, m);
      if n < |history| {
        TurnsExtend(role, history[n..], m);
        TurnsAlternate(role, history[n..]);
        LaterRunExtended(role, history, m, n);
      } else {
        SingleRunExtended(role, history, m);
      }
    }
  }

  lemma {:induction false} LaterRunExtended(role: string, history: seq<ChatMessage>, m: ChatMessage, n: nat)
    requires n < |history| && n == RunLength(role, history) == RunLength(role, history + [m])
    requires Turns(role, history[n..]) != []
    requires Turns(role, history[n..] + [m]) == Extended(role, Turns(role, history[n..]), m)
    ensures Turns(role, history + [m]) == Extended(role, Turns(role, history), m)
  {
    var first, rest := Turn(IsUser(role, history[0]), Joined(history[..n])), Turns(role, history[n..]);
    assert (history + [m])[..n] == history[..n] && (history + [m])[n..] == history[n..] + [m];
    ExtendedAfter(role, first, rest, m);
  }

  lemma {:induction false} ExtendedAfter(role: string, first: Turn, rest: seq<Turn>, m: ChatMessage)
    requires rest != []
    ensures Extended(role, [first] + rest, m) == [first] + Extended(role, rest, m)
  {
  }

  lemma {:induction false} SingleRunExtended(role: string, history: seq<ChatMessage>, m: ChatMessage)
    requires history != [] && RunLength(role, history) == |history|
    requires RunLength(role, history + [m]) ==
             if IsUser(role, m) == IsUser(role, history[0]) then |history| + 1 else |history|
    ensures Turns(role, history + [m]) == Extended(role, Turns(role, history), m)
  {
    var n, all := |history|, history + [m];
    assert history[..n] == history && history[n..] == [];
    var first := Turn(IsUser(role, history[0]), Joined(history));
    assert Turns(role, history) == [first];
    if IsUser(role, m) == IsUser(role, history[0]) {
      assert all[..n + 1] == all && all[n + 1..] == [];
      assert Front(all) == history && Joined(all) == Joined(history) + "\n" + m.content;
    } else {
      assert all[..n] == history && all[n..] == [m];
      assert [m][..1] == [m] && [m][1..] == [];
      assert Turns(role, [m]) == [Turn(IsUser(role, m), m.content)];
    }
  }

  lemma {:induction false} TurnsOfPrefix(role: string, history: seq<ChatMessage>, k: nat)
    requires k < |history|
    ensures Turns(role, history[..k + 1]) == Extended(role, Turns(role, history[..k]), history[k])
  {
    TurnsExtend(role, history[..k], history[k]);
    assert history[..k] + [history[k]] == history[..k + 1];
  }

  /** The loop over the history yields exactly the maximal runs. */
  method BuildMessages(role: string, history: seq<ChatMessage>) returns (turns: seq<Turn>)
    ensures turns == Turns(role, history)
  {
    turns := [];
    for k := 0 to |history|
      invariant turns == Turns(role, history[..k])
    {
      var m := history[k];
      var isUser := m.role == role;
      TurnsOfPrefix(role, history, k);
      if |turns| > 0 {
        var prev := turns[|turns| - 1];
        if isUser == prev.user {
          turns := turns[..|turns| - 1] + [Turn(isUser, prev.text + "\n" + m.content)];
          continue;
        }
      }
      turns := turns + [Turn(isUser, m.content)];
    }
    assert history[..|history|] == history;
  }

  // ---------------------------------------------------------------- the wrappers

  /** The conversation is in there unchanged, with at most one turn before and one after it. */
  ghost predicate Frames(outer: seq<Turn>, inner: seq<Turn>, before: nat, after: nat) {
    |outer| == before + |inner| + after && before <= 1 && after <= 1 && outer[before..before + |inner|] == inner
  }

  function PrependUser(turns: seq<Turn>, trigger: string): seq<Turn> {
    [Turn(true, trigger)] + turns
  }

  function ForIntake(turns: seq<Turn>, trigger: string): seq<Turn> {
    if turns == [] || !turns[0].user then PrependUser(turns, trigger) else turns
  }

  function UserFirst(turns: seq<Turn>, trigger: string): seq<Turn> {
    if turns != [] && !turns[0].user then PrependUser(turns, trigger) else turns
  }

  function ForSyllabus(turns: seq<Turn>, trigger: string, closing: string): seq<Turn> {
    if turns == [] then [Turn(true, closing)]
    else
      var anchored := if !turns[0].user then PrependUser(turns, trigger) else turns;
      if !Last(anchored).user then anchored + [Turn(true, closing)] else anchored
  }

  /** For every history the intake call is nonempty, alternates, starts with a user turn, and only a
      missing opening user turn is added. */
  lemma {:induction false} IntakeAnchored(role: string, history: seq<ChatMessage>, trigger: string)
    ensures var r := ForIntake(Turns(role, history), trigger);
            && Alternating(r) && r != [] && r[0].user
            && Frames(r, Turns(role, history), if history != [] && IsUser(role, history[0]) then 0 else 1, 0)
            && (history == [] || !IsUser(role, history[0]) ==> r[0].text == trigger)
  {
    TurnsAlternate(role, history);
  }

  /** The continued conversation starts with a user turn unless it is empty. */
  lemma {:induction false} ContinueAnchored(role: string, history: seq<ChatMessage>, trigger: string)
    ensures var r := UserFirst(Turns(role, history), trigger);
            && Alternating(r) && (r != [] ==> r[0].user) && (r == [] <==> history == [])
            && Frames(r, Turns(role, history), if history == [] || IsUser(role, history[0]) then 0 else 1, 0)
            && (history != [] && !IsUser(role, history[0]) ==> r[0].text == trigger)
  {
    TurnsAlternate(role, history);
  }

  lemma {:induction false} LastTurn(role: string, history: seq<ChatMessage>)
    requires history != []
    ensures Turns(role, history) != [] && Last(Turns(role, history)).user == IsUser(role, Last(history))
  {
    TurnsExtend(role, Front(history), Last(history));
    assert Front(history) + [Last(history)] == history;
  }

  /** The syllabus call is nonempty, alternates, and starts and ends with a user turn; what is added
      is an opening when the assistant spoke first and a closing when it spoke last. */
  lemma {:induction false} SyllabusAnchored(role: string, history: seq<ChatMessage>, trigger: string, closing: string)
    ensures var r := ForSyllabus(Turns(role, history), trigger, closing);
            && Alternating(r) && r != [] && r[0].user && Last(r).user
            && Frames(r, Turns(role, history),
                      if history == [] || IsUser(role, history[0]) then 0 else 1,
                      if history != [] && IsUser(role, Last(history)) then 0 else 1)
            && (history != [] && !IsUser(role, history[0]) ==> r[0].text == trigger)
            && (history == [] || !IsUser(role, Last(history)) ==> Last(r).text == closing)
  {
    TurnsAlternate(role, history);
    if history != [] {
      LastTurn(role, history);
      var turns := Turns(role, history);
      var anchored := UserFirst(turns, trigger);
      assert Last(anchored) == Last(turns);
      assert Alternating(anchored);
    }
  }

  method BuildMessagesForIntake(history: seq<ChatMessage>, topic: string) returns (turns: seq<Turn>)
    ensures turns == ForIntake(Turns("student", history),
                               "I'd like to learn about " + topic + ". Please begin the intake questionnaire.")
    ensures Alternating(turns) && turns != [] && turns[0].user
  {
    turns := BuildMessages(STUDENT, history);
    IntakeAnchored(STUDENT, history, IntakeTrigger(topic));
    turns := ForIntake(turns, IntakeTrigger(topic));
  }

  method BuildMessagesForSyllabus(history: seq<ChatMessage>, topic: string) returns (turns: seq<Turn>)
    ensures turns == ForSyllabus(
                       Turns("student", history), "I'd like to learn about " + topic + ".",
                       "Please generate the course syllabus for " + topic + " based on my intake responses.")
    ensures Alternating(turns) && turns != [] && turns[0].user && Last(turns).user
  {
    turns := BuildMessages(STUDENT, history);
    SyllabusAnchored(STUDENT, history, SyllabusTrigger(topic), SyllabusClosing(topic));
    turns := ForSyllabus(turns, SyllabusTrigger(topic), SyllabusClosing(topic));
  }

  /** The request for a node: the node's chat, then a user turn that is not merged. */
  method BuildNodeMessages(history: seq<ChatMessage>, trigger: string) returns (turns: seq<Turn>)
    ensures turns == Turns("user", history) + [Turn(true, trigger)]
  {
    turns := BuildMessages(USER, history);
    turns := turns + [Turn(true, trigger)];
  }

  /** It alternates exactly when the chat is empty or ends with the assistant: after feedback from a
      person or from the reviewing agent it does not. */
  lemma {:induction false} NodeRequestAlternates(history: seq<ChatMessage>, trigger: string)
    ensures Alternating(Turns(USER, history) + [Turn(true, trigger)])
            <==> history == [] || !IsUser(USER, Last(history))
  {
    TurnsAlternate(USER, history);
    if history != [] {
      LastTurn(USER, history);
      OneMoreAlternates(Turns(USER, history), Turn(true, trigger));
    }
  }

  lemma {:induction false} OneMoreAlternates(turns: seq<Turn>, t: Turn)
    requires Alternating(turns) && turns != []
    ensures Alternating(turns + [t]) <==> Last(turns).user != t.user
  {
    var n, more := |turns|, turns + [t];
    assert more[n - 1] == Last(turns) && more[n] == t;
    forall i | 0 < i < n
      ensures more[i].user != more[i - 1].user
    {
      assert more[i] == turns[i] && more[i - 1] == turns[i - 1];
    }
  }

  function IntakeTrigger(topic: string): string {
    "I'd like to learn about " + topic + ". Please begin the intake questionnaire."
  }

  function SyllabusTrigger(topic: string): string {
    "I'd like to learn about " + topic + "."
  }

  function SyllabusClosing(topic: string): string {
    "Please generate the course syllabus for " + topic + " based on my intake responses."
  }
}
