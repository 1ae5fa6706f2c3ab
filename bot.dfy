/** The two interfaces to the completion service in `code/bot.py`. Each keeps
    a prompt list that its methods append to and remove from in place, and a
    model name. The service calls themselves are not part of this model. */
module Bot {
  import opened Python
  import opened PromptList

  const DefaultModel := "gpt-3.5-turbo-0125"
  const DefaultInstructions := "Speak like a friendly social media account"

  /** Why a method raised. */
  datatype Failure =
    | EmptyModelName           // 'model name parameter is empty'
    | EmptyCustomInput         // 'Custom Input is empty of contents'
    | InvalidPrompt            // prompt is null or not type string
    | InvalidModelType         // provided model type is not acceptable
    | ExtraPositionalArgument  // TypeError: the validator got one argument too many

  /** A method either returns normally or raises. */
  datatype Outcome = Done | Raised(failure: Failure)

  /** What `sendMessage` hands to the completion service. */
  datatype Request = Request(model: string, instructions: string, input: seq<Entry>,
                             previousResponseId: Option<string>)

  class GPTInterface {
    var input: seq<Entry>
    var model: string
    var instructions: string
    var statelessConversation: bool
    var userReferenceDictionary: map<string, string>

    constructor ()
      ensures input == [] && model == DefaultModel && instructions == DefaultInstructions
      ensures statelessConversation && userReferenceDictionary == map[]
    {
      input := [];
      model := DefaultModel;
      instructions := DefaultInstructions;
      statelessConversation := true;
      userReferenceDictionary := map[];
    }

    method AddSystemPrompt(prompt: Value)
      modifies this`input
      ensures input == old(input) + [Single(System, Render(prompt))]
    {
      input := input + [Single(System, Render(prompt))];
    }

    method AddAssistantPrompt(prompt: Value)
      modifies this`input
      ensures input == old(input) + [Single(Assistant, Render(prompt))]
    {
      input := input + [Single(Assistant, Render(prompt))];
    }

    method AddUserPrompt(prompt: Value)
      modifies this`input
      ensures input == old(input) + [Single(User, Render(prompt))]
    {
      input := input + [Single(User, Render(prompt))];
    }

    /** Scans from the last entry towards the first for one whose `'role'` is
        `'user'` and hands its value to `list.remove`. */
    method RemoveMostRecentUserPrompt()
      modifies this`input
      ensures input == RemoveMostRecentRoleUser(old(input))
      ensures |input| == |old(input)| || |input| == |old(input)| - 1
    {
      var promptIndex := |input|;
      while promptIndex > 0
        invariant 0 <= promptIndex <= |input| && input == old(input)
        invariant forall j :: promptIndex <= j < |input| ==> !IsRoleUser(input[j])
      {
        promptIndex := promptIndex - 1;
        var prompt := input[promptIndex];
        if IsRoleUser(prompt) {
          assert MostRecentRoleUser(input) == Some(promptIndex);
          input := RemoveFirst(input, prompt);
          return;
        }
      }
      assert MostRecentRoleUser(input) == None;
    }

    method ChangeModel(modelType: Value) returns (outcome: Outcome)
      modifies this`model
      ensures modelType == Str("") ==> outcome == Raised(EmptyModelName) && model == old(model)
      ensures modelType != Str("") ==> outcome == Done && model == Render(modelType)
    {
      if modelType == Str("") {
        return Raised(EmptyModelName);
      }
      model := Render(modelType);
      return Done;
    }

    method SetInput(customInput: seq<Entry>) returns (outcome: Outcome)
      modifies this`input
      ensures customInput == [] ==> outcome == Raised(EmptyCustomInput) && input == old(input)
      ensures customInput != [] ==> outcome == Done && input == customInput
    {
      if customInput == [] {
        return Raised(EmptyCustomInput);
      }
      input := customInput;
      return Done;
    }

    /** The `previous_response_id` the request carries: `None` while the
        conversation is stateless, otherwise the id last recorded for
        `user`. */
    function PreviousResponseId(user: Value): (id: Option<string>)
      reads this
      ensures statelessConversation ==> id == None
      ensures id.Some? <==> !statelessConversation && user.Str? && user.s in userReferenceDictionary
      ensures id.Some? ==> id.value == userReferenceDictionary[Render(user)]
    {
      if statelessConversation || !(user.Str? && user.s in userReferenceDictionary) then None
      else Some(userReferenceDictionary[user.s])
    }

    /** The bookkeeping around one completion call: the message is appended
        as a user entry, the request is built from the list, the id of the
        service's response (a parameter here) is recorded for the user, and
        the removal scan runs. */
    method SendMessage(message: Value, user: Value, responseId: string) returns (sent: Request)
      modifies this`input, this`userReferenceDictionary
      ensures sent == Request(model, instructions, old(input) + [Single(User, Render(message))],
                              old(PreviousResponseId(user)))
      ensures userReferenceDictionary == old(userReferenceDictionary)[Render(user) := responseId]
      ensures input == RemoveMostRecentRoleUser(old(input) + [Single(User, Render(message))])
      ensures (forall e :: e in old(input) ==> !IsRoleUser(e)) ==>
                input == old(input) + [Single(User, Render(message))]
    {
      var previousConversationId := PreviousResponseId(user);
      ghost var before := input;
      ghost var entry := Single(User, Render(message));
      AddUserPrompt(message);
      sent := Request(model, instructions, input, previousConversationId);
      userReferenceDictionary := userReferenceDictionary[Render(user) := responseId];
      RemoveMostRecentUserPrompt();
      NoRoleUserAfterAppend(before, entry);
    }
  }

  /** Appending a user entry adds no entry whose `'role'` is `'user'`. */
  lemma NoRoleUserAfterAppend(before: seq<Entry>, entry: Entry)
    requires Role !in entry
    ensures (forall e :: e in before ==> !IsRoleUser(e)) ==>
              RemoveMostRecentRoleUser(before + [entry]) == before + [entry]
  {
    if forall e :: e in before ==> !IsRoleUser(e) {
      RemoveMostRecentNoRoleUser(before + [entry]);
    }
  }

  /** `validatePrompt`: a prompt passes exactly when it is a non-empty
      string. */
  function ValidatePrompt(prompt: Value): (outcome: Outcome)
    ensures outcome == Done <==> exists s :: prompt == Str(s) && |s| > 0
    ensures outcome != Done ==> outcome == Raised(InvalidPrompt)
  {
    if !Truthy(prompt) || !prompt.Str? then Raised(InvalidPrompt) else Done
  }

  class ModelInterface {
    var modelInput: seq<Entry>
    var model: string
    var instructions: string
    var statelessConversation: bool

    /** The list is empty or holds one user entry: `setSystemPrompt` and
        `addAssistantPrompt` always raise, so `setUserPrompt` is the only
        method that adds to it, and it first removes the user entry already
        there. */
    predicate Valid()
      reads this
    {
      UserSlot(modelInput)
    }

    constructor ()
      ensures Valid()
      ensures modelInput == [] && model == DefaultModel && instructions == DefaultInstructions
      ensures statelessConversation
    {
      modelInput := [];
      model := DefaultModel;
      instructions := DefaultInstructions;
      statelessConversation := true;
    }

    /** The method passes `self` to the bound `validatePrompt` a second
        time; the call raises `TypeError` whatever the prompt, so nothing
        after it runs and the list is never touched. */
    method SetSystemPrompt(prompt: Value) returns (outcome: Outcome)
      ensures outcome == Raised(ExtraPositionalArgument)
    {
      return Raised(ExtraPositionalArgument);
    }

    /** Raises `TypeError` on its first line, as `SetSystemPrompt` does. */
    method AddAssistantPrompt(prompt: Value) returns (outcome: Outcome)
      ensures outcome == Raised(ExtraPositionalArgument)
    {
      return Raised(ExtraPositionalArgument);
    }

    /** The loop `for entry in self.modelInput: if kind in entry:
        self.modelInput.remove(entry)`. */
    method RemoveEntriesWithKey(kind: string)
      modifies this`modelInput
      ensures old(Valid()) ==> Valid()
      ensures modelInput == Sweep(old(modelInput), kind)
    {
      var i := 0;
      while i < |modelInput|
        invariant SweepFrom(modelInput, i, kind) == Sweep(old(modelInput), kind)
        decreases |modelInput| - i
      {
        var entry := modelInput[i];
        i := i + 1;
        if kind in entry {
          modelInput := RemoveFirst(modelInput, entry);
        }
      }
      if old(Valid()) {
        SweepKeepsUserSlot(old(modelInput), kind);
      }
    }

    method ClearAssistantPrompts()
      modifies this`modelInput
      ensures old(Valid()) ==> Valid()
      ensures modelInput == Sweep(old(modelInput), Assistant)
      ensures WithoutKind(modelInput, Assistant) == WithoutKind(old(modelInput), Assistant)
      ensures Apart(old(modelInput), Assistant) ==> modelInput == WithoutKind(old(modelInput), Assistant)
    {
      RemoveEntriesWithKey(Assistant);
      SweepRemovesOnlyKind(old(modelInput), Assistant);
      if Apart(old(modelInput), Assistant) {
        SweepApartIsWithoutKind(old(modelInput), Assistant);
      }
    }

    method SetUserPrompt(prompt: Value) returns (outcome: Outcome)
      modifies this`modelInput
      ensures old(Valid()) ==> Valid()
      ensures outcome == ValidatePrompt(prompt)
      ensures outcome.Raised? ==> modelInput == old(modelInput)
      ensures outcome.Done? ==> modelInput == Sweep(old(modelInput), User) + [Single(User, prompt.s)]
      ensures outcome.Done? && old(Valid()) ==> modelInput == [Single(User, prompt.s)]
      ensures outcome.Done? ==>
                WithoutKind(modelInput, User) == WithoutKind(old(modelInput), User)
    {
      outcome := ValidatePrompt(prompt);
      if outcome.Raised? {
        return;
      }
      ghost var before := modelInput;
      RemoveEntriesWithKey(User);
      modelInput := modelInput + [Single(User, prompt.s)];
      if UserSlot(before) {
        UserSlotReplaced(before, prompt.s);
      } else {
        SweepRemovesOnlyKind(before, User);
        WithoutKindAppend(Sweep(before, User), [Single(User, prompt.s)], User);
        assert WithoutKind([Single(User, prompt.s)], User) == [];
      }
    }

    method SetModel(modelType: Value) returns (outcome: Outcome)
      modifies this`model
      ensures modelType.Str? ==> outcome == Done && model == modelType.s
      ensures !modelType.Str? ==> outcome == Raised(InvalidModelType) && model == old(model)
    {
      if modelType == PyNone || !modelType.Str? {
        return Raised(InvalidModelType);
      }
      model := modelType.s;
      return Done;
    }
  }

  /** The shapes `ModelInterface`'s own methods keep its list in: empty, or
      one entry whose only key is `'user'`. */
  predicate UserSlot(s: seq<Entry>)
  {
    s == [] || (|s| == 1 && s[0].Keys == {User})
  }

  /** The removal loop keeps a list in slot shape, and empties it when the
      key is `'user'`. */
  lemma SweepKeepsUserSlot(s: seq<Entry>, kind: string)
    requires UserSlot(s)
    ensures UserSlot(Sweep(s, kind))
    ensures kind == User ==> Sweep(s, kind) == []
  {
    if s != [] {
      var u := s[0];
      assert s == [u];
      if kind in u {
        assert RemoveFirst(s, u) == [];
        assert Sweep(s, kind) == SweepFrom([], 1, kind);
      } else {
        assert Sweep(s, kind) == SweepFrom(s, 1, kind);
      }
    }
  }

  /** Storing a user prompt over a list in slot shape: the removal loop
      empties it, and neither the old list nor the new one has an entry
      without the `'user'` key. */
  lemma UserSlotReplaced(s: seq<Entry>, p: string)
    requires UserSlot(s)
    ensures Sweep(s, User) == []
    ensures Sweep(s, User) + [Single(User, p)] == [Single(User, p)]
    ensures WithoutKind(s, User) == []
    ensures WithoutKind([Single(User, p)], User) == []
  {
    SweepKeepsUserSlot(s, User);
    if s != [] {
      assert s[1..] == [];
    }
    assert [Single(User, p)][1..] == [];
  }
}
