/**
 * The player list and the request path that the web client's `play()`
 * builds from the four player text fields and the selected target.
 *
 * The list is filled slot by slot with indexed assignment into a JavaScript
 * array, which in general may leave holes; the array is modelled with holes
 * (None) so that the absence of holes is proved rather than assumed.
 */
module Play {
  import opened Wrappers
  import opened Decimal

  /** The number of player text fields on the page. */
  const Slots: nat := 4

  /** The fixed beginning of the request path. */
  const PlayPrefix: string := "./play/"

  /** `a[k] = v` on a JavaScript array: extends it when k is past the end, leaving holes before k. */
  function JsStore(a: seq<Option<string>>, k: nat, v: string): (b: seq<Option<string>>)
    ensures |b| == if k < |a| then |a| else k + 1
    ensures b[k] == Some(v)
    ensures forall m :: 0 <= m < |b| && m != k ==> b[m] == (if m < |a| then a[m] else None)
  {
    if k < |a| then a[k := Some(v)] else a + seq(k - |a|, _ => None) + [Some(v)]
  }

  /** A JavaScript array without holes holding exactly `s`. */
  function Dense(s: seq<string>): (a: seq<Option<string>>)
    ensures |a| == |s|
    ensures forall k :: 0 <= k < |a| ==> a[k] == Some(s[k])
  {
    seq(|s|, k requires 0 <= k < |s| => Some(s[k]))
  }

  /** The default name of slot i, `Player ${i}`. */
  function DefaultName(i: nat): (name: string)
    ensures |name| > |"Player "| && name[..|"Player "|] == "Player "
  {
    "Player " + NatToString(i)
  }

  /** What slot i (1-based) contributes when it is filled in: the typed value, or its default name when blank. */
  function SlotName(inputs: seq<string>, i: nat): (name: string)
    requires 1 <= i <= |inputs|
    ensures name != ""
    ensures inputs[i - 1] != "" ==> name == inputs[i - 1]
  {
    if inputs[i - 1] == "" then DefaultName(i) else inputs[i - 1]
  }

  /**
   * The players named by the first m slots, in slot order: every slot
   * contributes its name, except a blank last slot, which contributes
   * nothing.
   */
  function SlotPlayers(inputs: seq<string>, m: nat): seq<string>
    requires |inputs| == Slots && m <= Slots
    decreases m
  {
    if m == 0 then []
    else if m == Slots && inputs[m - 1] == "" then SlotPlayers(inputs, m - 1)
    else SlotPlayers(inputs, m - 1) + [SlotName(inputs, m)]
  }

  /** The player list `play()` sends and later passes to makeTable. */
  function PlayerList(inputs: seq<string>): seq<string>
    requires |inputs| == Slots
  {
    SlotPlayers(inputs, Slots)
  }

  /**
   * The list has three entries when the fourth field is blank and four
   * otherwise; entry k belongs to slot k + 1, is its typed value when that
   * is not blank and `Player k+1` when it is; no entry is blank.
   */
  lemma PlayerListShape(inputs: seq<string>)
    requires |inputs| == Slots
    ensures var players := PlayerList(inputs);
      && |players| == (if inputs[3] == "" then 3 else 4)
      && (forall k :: 0 <= k < |players| ==> players[k] != "")
      && (forall k :: 0 <= k < |players| && inputs[k] != "" ==> players[k] == inputs[k])
      && (forall k :: 0 <= k < |players| && inputs[k] == "" ==> players[k] == DefaultName(k + 1))
  {
  }

  /**
   * The loop of `play()` over the slots i = 1 .. 4: a blank fourth field is
   * skipped, any other blank field stores `Player ${i}` at index i - 1, and
   * a filled field stores its value there. The array ends up without holes,
   * holding `PlayerList(inputs)`.
   */
  method BuildPlayers(inputs: seq<string>) returns (players: seq<Option<string>>)
    requires |inputs| == Slots
    ensures players == Dense(PlayerList(inputs))
  {
    players := [];
    var i := 1;
    while i < Slots + 1
      invariant 1 <= i <= Slots + 1
      invariant players == Dense(SlotPlayers(inputs, i - 1))
      invariant i <= Slots ==> |SlotPlayers(inputs, i - 1)| == i - 1
    {
      ghost var before := SlotPlayers(inputs, i - 1);
      if inputs[i - 1] == "" && i == 4 {
      } else if inputs[i - 1] == "" {
        players := JsStore(players, i - 1, "Player " + NatToString(i));
        assert players == Dense(before + [SlotName(inputs, i)]);
      } else {
        players := JsStore(players, i - 1, inputs[i - 1]);
        assert players == Dense(before + [SlotName(inputs, i)]);
      }
      i := i + 1;
    }
  }

  /**
   * `./play/${target}/${count}`: the path starts with `./play/` and ends
   * with the canonical numeral of the count, which reads back as the count.
   */
  function PlayPath(target: string, count: nat): (p: string)
    ensures PlayPrefix <= p
    ensures var digits := NatToString(count);
      |digits| < |p| && p[|p| - |digits| - 1] == '/'
      && IsCanonical(p[|p| - |digits|..]) && ParseDecimal(p[|p| - |digits|..]) == count
  {
    var digits := NatToString(count);
    var p := PlayPrefix + target + "/" + digits;
    assert p[|p| - |digits|..] == digits;
    ParseNatToString(count);
    p
  }

  /** s is a single path segment: it holds no '/'. */
  predicate NoSlash(s: string) {
    forall m :: 0 <= m < |s| ==> s[m] != '/'
  }

  /** The index of the first '/' in s at or after i, or |s| when there is none. */
  function SlashFrom(s: string, i: nat): (k: nat)
    requires i <= |s|
    ensures i <= k <= |s|
    ensures forall m :: i <= m < k ==> s[m] != '/'
    ensures k < |s| ==> s[k] == '/'
    decreases |s| - i
  {
    if i == |s| || s[i] == '/' then i else SlashFrom(s, i + 1)
  }

  /** A string around a '/' at index k is what precedes it, the '/', and what follows. */
  lemma SplitAround(s: string, k: nat)
    requires k < |s| && s[k] == '/'
    ensures s == s[..k] + "/" + s[k + 1..]
  {
  }

  /** Cutting at the first '/' gives a segment without '/', the '/', and the rest. */
  lemma CutAtSlash(s: string)
    requires SlashFrom(s, 0) < |s|
    ensures var k := SlashFrom(s, 0);
      NoSlash(s[..k]) && s == s[..k] + "/" + s[k + 1..]
  {
    var k := SlashFrom(s, 0);
    forall m | 0 <= m < k
      ensures s[..k][m] != '/'
    {
      assert s[..k][m] == s[m];
    }
    SplitAround(s, k);
  }

  /** Splits s at its first '/' into the segment before it and the text after it; None when s holds no '/'. */
  function CutSegment(s: string): (r: Option<(string, string)>)
    ensures r.Some? ==> NoSlash(r.value.0) && s == r.value.0 + "/" + r.value.1
    ensures r.None? ==> NoSlash(s)
  {
    var k := SlashFrom(s, 0);
    if k == |s| then None else CutAtSlash(s); Some((s[..k], s[k + 1..]))
  }

  /** A segment without '/' followed by '/' can be cut off in only one way. */
  lemma SegmentUnique(a: string, b: string, a': string, b': string)
    requires NoSlash(a) && NoSlash(a') && a + "/" + b == a' + "/" + b'
    ensures a == a' && b == b'
  {
    var s := a + "/" + b;
    assert forall m :: 0 <= m < |a| ==> s[m] == a[m];
    assert forall m :: 0 <= m < |a'| ==> s[m] == a'[m];
    assert s[|a|] == '/' && s[|a'|] == '/';
    assert a == s[..|a|] == a';
    assert b == s[|a| + 1..] == b';
  }

  /**
   * The server's route `/play/{target}/{num_players}`: a non-empty target
   * segment without '/', then a canonical decimal player count.
   */
  function ParsePlayPath(path: string): (r: Option<(string, nat)>)
    ensures r.Some? ==> PlayPrefix <= path && r.value.0 != "" && NoSlash(r.value.0)
  {
    if !(PlayPrefix <= path) then None
    else match CutSegment(path[|PlayPrefix|..])
      case None => None
      case Some((target, digits)) =>
        if target != "" && IsCanonical(digits) then Some((target, ParseDecimal(digits))) else None
  }

  /** The route recovers the target and the player count from the path the client sends. */
  lemma PlayPathRoundTrip(target: string, count: nat)
    requires target != "" && NoSlash(target)
    ensures ParsePlayPath(PlayPath(target, count)) == Some((target, count))
  {
    var path := PlayPath(target, count);
    var digits := NatToString(count);
    var rest := target + "/" + digits;
    assert PlayPrefix <= path && path[|PlayPrefix|..] == rest;
    assert rest[|target|] == '/';
    var cut := CutSegment(rest);
    assert cut.Some?;
    SegmentUnique(cut.value.0, cut.value.1, target, digits);
    ParseNatToString(count);
  }

  /** Every path the route accepts is the path the client sends for what the route reads from it. */
  lemma ParsePlayPathSound(path: string, target: string, count: nat)
    requires ParsePlayPath(path) == Some((target, count))
    ensures target != "" && NoSlash(target)
    ensures PlayPath(target, count) == path
  {
    var rest := path[|PlayPrefix|..];
    var digits := CutSegment(rest).value.1;
    assert path == PlayPrefix + rest;
    NatToStringParse(digits);
  }

  /**
   * The part of `play()` before the request: builds the player list and
   * the request path, which names the player count, 3 or 4.
   */
  method Play(inputs: seq<string>, target: string) returns (players: seq<Option<string>>, path: string)
    requires |inputs| == Slots
    ensures players == Dense(PlayerList(inputs))
    ensures path == PlayPrefix + target + (if inputs[3] == "" then "/3" else "/4")
  {
    players := BuildPlayers(inputs);
    path := PlayPath(target, |players|);
    PlayerListShape(inputs);
  }

  /** Only the second field filled in: the other two of the first three get default names. */
  lemma SecondPlayerOnlyExample()
    ensures PlayerList(["", "B", "", ""]) == ["Player 1", "B", "Player 3"]
  {
    var inputs := ["", "B", "", ""];
    assert NatToString(1) == "1" && NatToString(3) == "3";
    assert DefaultName(1) == "Player 1" && DefaultName(3) == "Player 3";
    assert SlotPlayers(inputs, 3) == [SlotName(inputs, 1), SlotName(inputs, 2), SlotName(inputs, 3)];
  }
}
