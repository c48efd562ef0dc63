/**
 * HamTimelineEvent.cs: the records a playing timeline hands to its listener. Each event
 * carries its kind (HamEventType) and the ids or text it reports; the Choice event is
 * built in place, one offered decision at a time.
 */
module Events {
  import opened Serializer
  import opened Nodes

  datatype HamEventType = SceneChanges | CharacterEnters | CharacterLeaves | Dialog | Choice

  datatype TimelineEvent =
    | SceneChangesEvent(sceneID: int32)
    | CharacterEntersEvent(characterID: int32)
    | CharacterLeavesEvent(characterID: int32)
    | DialogEvent(speakerID: int32, dialog: string)
    | ChoiceEvent(choices: map<int, Decision>)
  {
    /** The Type field each constructor sets: one tag per kind of event, and no two kinds share one. */
    function Type(): (t: HamEventType)
      ensures t == SceneChanges <==> SceneChangesEvent?
      ensures t == CharacterEnters <==> CharacterEntersEvent?
      ensures t == CharacterLeaves <==> CharacterLeavesEvent?
      ensures t == Dialog <==> DialogEvent?
      ensures t == Choice <==> ChoiceEvent?
    {
      match this
      case SceneChangesEvent(_) => SceneChanges
      case CharacterEntersEvent(_) => CharacterEnters
      case CharacterLeavesEvent(_) => CharacterLeaves
      case DialogEvent(_, _) => Dialog
      case ChoiceEvent(_) => Choice
    }
  }

  /** HamChoiceEvent: the Choices dictionary, filled by AddChoice before the event is sent. */
  class ChoiceBuilder {
    var choices: map<int, Decision>

    /** new HamChoiceEvent(): no choices yet. */
    constructor()
      ensures choices == map[]
    {
      choices := map[];
    }

    /** AddChoice(id, decision): `id` now maps to `decision`, replacing an earlier entry; no other key changes. */
    method AddChoice(id: int, decision: Decision)
      modifies this
      ensures choices == old(choices)[id := decision]
      ensures choices.Keys == old(choices).Keys + {id}
      ensures forall k :: k in old(choices) && k != id ==> choices[k] == old(choices)[k]
    {
      choices := choices[id := decision];
    }

    /** The event the listener receives. */
    function Event(): (e: TimelineEvent)
      reads this
      ensures e.Type() == Choice && e.choices == choices
    {
      ChoiceEvent(choices)
    }
  }
}
