/** The prefetch cache for the latest block, kept up to date by a loop that reacts to BlockAdded
    announcements by asking the node for the block of that height. */
module BlockCache {
  import opened SseTypes

  datatype Block = Block(height: nat, body: nat)

  /** The node's answer to a request for the block of a height. */
  datatype Answer = Found(block: Block) | Missing | Failed

  /** A message on the announcement channel; an announcement comes with the answer the node gives
      if it is asked. */
  datatype Message = Announced(height: nat, answer: Answer) | Lagged | Closed

  /** Whether the cached block is at least as high, so that the node is not asked. */
  predicate Covers(cache: Option<Block>, height: nat) {
    cache.Some? && height <= cache.value.height
  }

  function Update(cache: Option<Block>, message: Message): Option<Block> {
    match message
    case Announced(height, answer) =>
      if Covers(cache, height) then cache
      else if !answer.Found? then None
      else if Covers(cache, answer.block.height) then cache
      else Some(answer.block)
    case Lagged => None
    case Closed => None
  }

  function CacheAfter(initial: Option<Block>, messages: seq<Message>): Option<Block> {
    if messages == [] then initial
    else Update(CacheAfter(initial, messages[..|messages| - 1]), messages[|messages| - 1])
  }

  class CachingNodeClient {
    var cache: Option<Block>

    constructor ()
      ensures cache == None
    {
      cache := None;
    }

    /** Runs the update loop over the messages that arrive; it ends when the channel is closed. */
    method CacheUpdateLoop(messages: seq<Message>) returns (handled: nat, closed: bool)
      modifies this
      ensures handled <= |messages|
      ensures closed <==> handled > 0 && messages[handled - 1].Closed?
      ensures !closed ==> handled == |messages|
      ensures cache == CacheAfter(old(cache), messages[..handled])
    {
      handled, closed := 0, false;
      while handled < |messages|
        invariant 0 <= handled <= |messages|
        invariant handled > 0 ==> !messages[handled - 1].Closed?
        invariant cache == CacheAfter(old(cache), messages[..handled])
        decreases |messages| - handled
      {
        var message := messages[handled];
        assert messages[..handled + 1][..handled] == messages[..handled];
        handled := handled + 1;
        match message {
          case Announced(height, answer) =>
            if cache.Some? && height <= cache.value.height {
              continue;
            }
            match answer {
              case Found(block) =>
                if cache.Some? && block.height <= cache.value.height {
                  continue;
                }
                cache := Some(block);
              case _ => cache := None;
            }
          case Lagged => cache := None;
          case Closed =>
            cache := None;
            return handled, true;
        }
      }
    }
  }

  /** Whatever the node answers, a later cached read gives the same block or one of strictly greater
      height, unless the cache was cleared in between. */
  lemma {:induction false} ReadsNeverGoBack(initial: Option<Block>, messages: seq<Message>, i: nat, j: nat)
    requires i <= j <= |messages|
    requires forall k | i <= k <= j :: CacheAfter(initial, messages[..k]).Some?
    ensures var early, late := CacheAfter(initial, messages[..i]), CacheAfter(initial, messages[..j]);
            early == late || early.value.height < late.value.height
    decreases j
  {
    if i < j {
      ReadsNeverGoBack(initial, messages, i, j - 1);
      assert messages[..j][..j - 1] == messages[..j - 1];
    }
  }

  /** Whether a message ends the time of a cached block: the channel lags or closes, or a higher block is
      announced and the node gives a higher one or none. */
  predicate Displaces(message: Message, block: Block) {
    message.Announced? ==>
      && block.height < message.height
      && (message.answer.Found? ==> block.height < message.answer.block.height)
  }

  /** A cached block stays until the first message that displaces it; then the block that the node gave, if
      any, takes its place. */
  lemma {:induction false} KeptUntilDisplaced(initial: Option<Block>, messages: seq<Message>, i: nat, j: nat)
    requires i <= j < |messages| && CacheAfter(initial, messages[..i]).Some?
    requires forall k | i <= k < j :: !Displaces(messages[k], CacheAfter(initial, messages[..i]).value)
    ensures var cached, message := CacheAfter(initial, messages[..i]), messages[j];
            && CacheAfter(initial, messages[..j]) == cached
            && CacheAfter(initial, messages[..j + 1]) ==
                 if !Displaces(message, cached.value) then cached
                 else if message.Announced? && message.answer.Found? then Some(message.answer.block)
                 else None
    decreases j
  {
    assert messages[..j + 1][..j] == messages[..j];
    if i < j {
      KeptUntilDisplaced(initial, messages, i, j - 1);
    }
  }

  /** The heights announced since the last event after which the cache cannot be trusted: a lag, the
      end of the channel, or an announcement above all others whose block the node did not give. */
  function TrustedHeights(messages: seq<Message>): seq<nat> {
    if messages == [] then []
    else
      var heights, last := TrustedHeights(messages[..|messages| - 1]), messages[|messages| - 1];
      match last
      case Announced(height, answer) =>
        if !answer.Found? && forall h | h in heights :: h < height then [] else heights + [height]
      case Lagged => []
      case Closed => []
  }

  /** If the node returns blocks of the heights asked for, the cache is empty or holds the block of
      the greatest height announced since it could last not be trusted. */
  lemma {:induction false} CacheIsGreatestAnnounced(messages: seq<Message>)
    requires forall m | m in messages && m.Announced? && m.answer.Found? :: m.answer.block.height == m.height
    ensures var cache, heights := CacheAfter(None, messages), TrustedHeights(messages);
            && (cache.None? <==> heights == [])
            && (cache.Some? ==> cache.value.height in heights && forall h | h in heights :: h <= cache.value.height)
            && (cache.Some? ==> exists m | m in messages :: m.Announced? && m.answer == Found(cache.value))
  {
    if messages != [] {
      var before, last := messages[..|messages| - 1], messages[|messages| - 1];
      assert messages == before + [last];
      CacheIsGreatestAnnounced(before);
      var cache := CacheAfter(None, messages);
      if cache.Some? {
        if cache == CacheAfter(None, before) {
          var m :| m in before && m.Announced? && m.answer == Found(cache.value);
          assert m in messages;
        } else {
          assert last.answer == Found(cache.value);
        }
      }
    }
  }
}
