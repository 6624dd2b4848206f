/** The invite-link script at the head of main.py: the hash sent to the invite check, and
    the full chat id printed from the chat the check returns. */
module InviteLink {
  import opened Wrappers
  import opened Text
  import opened Telegram

  /** `link.split('/')[-1].replace('+', '')`. */
  function InviteHash(link: string): (h: string)
    ensures '/' !in h && '+' !in h
  {
    LastPieceSpec(link, '/');
    ReplaceAllDelete(LastPiece(link, '/'), '+');
    ReplaceAll(LastPiece(link, '/'), "+", "")
  }

  /** The hash is the text after the last `/` of the link with every `+` deleted. */
  lemma InviteHashSpec(link: string)
    ensures exists k :: (0 <= k <= |link| && (k == 0 || link[k - 1] == '/') && '/' !in link[k..] &&
                         InviteHash(link) == Without(link[k..], '+'))
  {
    LastPieceSpec(link, '/');
    ReplaceAllDelete(LastPiece(link, '/'), '+');
    var k := |link| - |LastPiece(link, '/')|;
    assert link[k..] == LastPiece(link, '/');
  }

  /** `int(f"-100{chat_id}")`; `None` where Python raises `ValueError`, which happens for a
      negative `chat_id` ("-100-5" is not a numeral). */
  function FullChatId(chatId: int): (r: Option<int>)
    ensures r.Some? <==> chatId >= 0
  {
    var s := SupergroupMarker + IntToString(chatId);
    assert s[1..] == "100" + IntToString(chatId);
    if chatId < 0 then
      assert !IsDigit(s[1..][3]);
      ParseInt(s)
    else
      assert IsDigit(s[1..][3]);
      ParseInt(s)
  }

  /** The full id prints as the marker followed by the chat's own digits. */
  lemma FullChatIdPrints(chatId: nat)
    ensures FullChatId(chatId).Some?
    ensures IntToString(FullChatId(chatId).value) == SupergroupMarker + NatToString(chatId)
  {
    var t := "100" + NatToString(chatId);
    FullChatIdUnfold(chatId);
    MarkedDigitsCanonical(chatId);
    ParseNegative("-" + t, t);
    MarkedValuePrints(chatId);
  }

  lemma FullChatIdUnfold(chatId: nat)
    ensures FullChatId(chatId) == ParseInt("-" + ("100" + NatToString(chatId)))
  {
    assert SupergroupMarker + IntToString(chatId) == "-" + ("100" + NatToString(chatId));
  }

  lemma MarkedValuePrints(chatId: nat)
    ensures Canonical("100" + NatToString(chatId)) &&
      IntToString(-(DigitsValue("100" + NatToString(chatId)) as int)) == "-" + ("100" + NatToString(chatId))
  {
    var t := "100" + NatToString(chatId);
    MarkedDigitsCanonical(chatId);
    NatOfDigits(t);
    var v := DigitsValue(t);
    assert v >= 10 by {
      assert |NatToString(v)| > 1;
    }
  }

  lemma MarkedDigitsCanonical(chatId: nat)
    ensures Canonical("100" + NatToString(chatId))
  {
    var n := NatToString(chatId);
    var t := "100" + n;
    forall i | 0 <= i < |t| ensures IsDigit(t[i]) {
      if i >= 3 { assert t[i] == n[i - 3]; }
    }
  }

  lemma ParseNegative(s: string, t: string)
    requires Canonical(t) && s == "-" + t
    ensures ParseInt(s) == Some(-(DigitsValue(t) as int))
  {
    assert s[1..] == t;
  }

  /** Prefixing the marker and then removing it, as the private-link rule does, gives back
      the chat id's decimal text. */
  lemma MarkerRoundTrip(chatId: nat)
    ensures FullChatId(chatId).Some?
    ensures StripMarker(IntToString(FullChatId(chatId).value)) == NatToString(chatId)
  {
    FullChatIdPrints(chatId);
    var s := IntToString(FullChatId(chatId).value);
    StripMarkerOfId(FullChatId(chatId).value);
    assert s[..4] == SupergroupMarker;
  }

  /** For a link of the usual shape `…/+HASH`, with no `/` or `+` in `HASH`, the hash is
      `HASH` (the script's example "https://t.me/+yzaVtTH62jM1ZTI0" is one). */
  lemma PlusLinkHash(site: string, hash: string)
    requires '/' !in hash && '+' !in hash
    ensures InviteHash(site + "/+" + hash) == hash
  {
    var tail := "+" + hash;
    assert '/' !in tail;
    assert site + "/+" + hash == site + ['/'] + tail;
    LastPieceAfter(site, tail, '/');
    ReplaceAllDelete(tail, '+');
    assert tail[1..] == hash;
    assert Without(tail, '+') == Without(hash, '+');
    WithoutAbsent(hash, '+');
  }
}
