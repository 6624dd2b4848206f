/** What the scripts read from the Telegram client library, as immutable values, and the
    link and caption rules both catalog scripts share. */
module Telegram {
  import opened Wrappers
  import opened Text
  import Seqs

  /** A resolved channel or group: numeric id, optional title, optional public handle. */
  datatype Entity = Entity(id: int, title: Option<string>, username: Option<string>)

  /** One stored size of a video's preview image, as the library references it. */
  datatype Thumb = Thumb(location: string)

  /** A video attachment. `duration`, in seconds and possibly fractional, is absent when the
      library's object has no such attribute; `thumbs` lists the preview sizes in ascending
      resolution (an absent list is the empty one). */
  datatype Video = Video(duration: Option<real>, thumbs: seq<Thumb>)

  /** A channel post: id, the chat it was posted in, optional video, optional text. */
  datatype Message = Message(id: int, chat: Entity, video: Option<Video>, text: Option<string>)

  /** The caption given to a video post without text. */
  const DefaultCaption: string := "V\U{ed}deo sem legenda"

  /** The prefix the platform puts in front of supergroup and channel ids. */
  const SupergroupMarker: string := "-100"

  function MessageId(m: Message): int {
    m.id
  }

  /** Python truthiness of `entity.username`: present and not the empty string. */
  predicate HasHandle(e: Entity) {
    e.username.Some? && e.username.value != ""
  }

  /** `message.text or DefaultCaption`: the text when it is non-empty, the default otherwise. */
  function Caption(m: Message): (c: string)
    ensures c != ""
    ensures c == DefaultCaption || Some(c) == m.text
    ensures m.text.Some? && m.text.value != "" ==> c == m.text.value
  {
    match m.text
    case Some(t) => if t != "" then t else DefaultCaption
    case None => DefaultCaption
  }

  /** `f"https://t.me/{prefix}/{id}"`. */
  function MessageLink(prefix: string, id: int): string {
    "https://t.me/" + prefix + "/" + IntToString(id)
  }

  /** `s.replace("-100", "")`. */
  function StripMarker(s: string): string {
    ReplaceAll(s, SupergroupMarker, "")
  }

  /** The history as the client iterates it: most recent first, ids strictly decreasing. */
  predicate NewestFirst(history: seq<Message>) {
    Seqs.Descending(MessageId, history)
  }

  predicate OldestFirst(history: seq<Message>) {
    Seqs.Ascending(MessageId, history)
  }

  /** `str(id).replace("-100", "")` removes the marker exactly when the printed id begins
      with it (a minus sign can only be the first character), and changes nothing otherwise. */
  lemma StripMarkerOfId(id: int)
    ensures var s := IntToString(id);
      StripMarker(s) == if |s| >= 4 && s[..4] == SupergroupMarker then s[4..] else s
  {
    var s := IntToString(id);
    assert '-' !in s[1..];
    if |s| >= 4 && s[..4] == SupergroupMarker {
      assert '-' !in s[4..] by { assert s[4..] == s[1..][3..]; }
      ReplaceAllAbsent(s[4..], SupergroupMarker, "");
    } else if |s| >= 4 {
      ReplaceAllAbsent(s[1..], SupergroupMarker, "");
      assert s == [s[0]] + s[1..];
    }
  }
}
