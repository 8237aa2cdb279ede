/**
 The command loop of `main`: twenty rounds that view blocks or add messages.

 `After` and `Seen` say what a run of the loop does to the chain and what it shows. The
 theorems are about them: links are kept, which messages are in the chain, and what is
 shown for a block.
 */
module ChainRuns {
  import opened Bytes
  import opened Merkle
  import opened Results
  import opened Rsa
  import opened Chain

  datatype Command = View(index: int) | Add(message: Text) | Other

  const ROUNDS := 20

  // ----- one command

  /** Some nonce mines the header, or the header with "fail" happens to lead with "00". */
  ghost predicate Addable(c: Context, chain: seq<Block>, message: Text)
    requires chain != []
  {
    var header := NextHeader(c, chain, [message]);
    |chain| <= 0x7FFF_FFFF && (Minable(c.digest, header) || Leads(Sha256(c.digest, header + FAIL)))
  }

  /** The block with the message, next in the chain, with the nonce found or "fail". */
  ghost function NextBlock(c: Context, chain: seq<Block>, message: Text): Block
    requires chain != [] && c.keys.n > 0
  {
    var nonce := FoundNonce(c.digest, NextHeader(c, chain, [message]));
    NewBlock(c, ToInt32(|chain|), chain[|chain| - 1].hash, nonce, [message])
  }

  ghost function Added(c: Context, chain: seq<Block>, message: Text): (longer: seq<Block>)
    requires chain != [] && c.keys.n > 0
    ensures longer != []
  {
    if Addable(c, chain, message) then chain + [NextBlock(c, chain, message)] else chain
  }

  /** Some block has the index. */
  predicate Present(chain: seq<Block>, index: int) {
    exists i :: 0 <= i < |chain| && chain[i].index == index
  }

  /** What viewing an index shows: whether the signature of the first block with it is one
      for the hash of its header. */
  function Viewed(c: Context, chain: seq<Block>, index: int): Result<bool>
    requires c.keys.n > 0
  {
    if chain == [] then Err(InvalidArgument)
    else if chain[0].index == index then Ok(Accepts(c.lib, c.keys, Sha256(c.digest, chain[0].header), chain[0].signature))
    else Viewed(c, chain[1..], index)
  }

  lemma {:induction false} ViewedFirst(c: Context, chain: seq<Block>, i: nat, index: int)
    requires c.keys.n > 0 && i < |chain| && FirstWithIndex(chain, i, index)
    ensures Viewed(c, chain, index) == Ok(Accepts(c.lib, c.keys, Sha256(c.digest, chain[i].header), chain[i].signature))
  {
    hide Accepts, Sha256;
    if i > 0 {
      assert chain[0].index != index;
      ViewedFirst(c, chain[1..], i - 1, index);
    }
  }

  lemma {:induction false} ViewedNone(c: Context, chain: seq<Block>, index: int)
    requires c.keys.n > 0
    ensures Viewed(c, chain, index) == Err(InvalidArgument) <==> !Present(chain, index)
  {
    hide Accepts, Sha256;
    if chain != [] && chain[0].index != index {
      ViewedNone(c, chain[1..], index);
      PresentRest(chain, index);
    }
  }

  lemma PresentRest(chain: seq<Block>, index: int)
    requires chain != [] && chain[0].index != index
    ensures Present(chain, index) <==> Present(chain[1..], index)
  {
    if Present(chain, index) {
      var i :| 0 <= i < |chain| && chain[i].index == index;
      assert chain[1..][i - 1] == chain[i];
    }
  }

  /** On a linked chain every block is shown as correctly signed, and other indices as errors. */
  lemma ViewedLinked(c: Context, chain: seq<Block>, index: int)
    requires c.keys.n > 0 && Linked(c, chain)
    ensures Viewed(c, chain, index) == if 0 <= index < |chain| then Ok(true) else Err(InvalidArgument)
  {
    hide Accepts, Sha256, HeaderFor, Viewed;
    IndexIsPosition(c, chain);
    if 0 <= index < |chain| {
      ViewedFirst(c, chain, index, index);
      assert Follows(chain, index) && Consistent(c, chain[index]) && Signed(c, chain[index]);
    } else {
      ViewedNone(c, chain, index);
    }
  }

  // ----- runs

  /** The chain after the commands. */
  ghost function After(c: Context, chain: seq<Block>, commands: seq<Command>): (after: seq<Block>)
    requires chain != [] && c.keys.n > 0
    ensures after != []
  {
    if commands == [] then chain
    else
      var before := After(c, chain, commands[..|commands| - 1]);
      if commands[|commands| - 1].Add? then Added(c, before, commands[|commands| - 1].message) else before
  }

  /** What the views among the commands show. */
  ghost function Seen(c: Context, chain: seq<Block>, commands: seq<Command>): seq<Result<bool>>
    requires chain != [] && c.keys.n > 0
  {
    if commands == [] then []
    else
      var init, last := commands[..|commands| - 1], commands[|commands| - 1];
      Seen(c, chain, init) + if last.View? then [Viewed(c, After(c, chain, init), last.index)] else []
  }

  /** The messages that the commands add, in order. */
  function Messages(commands: seq<Command>): seq<Text> {
    if commands == [] then []
    else
      var last := commands[|commands| - 1];
      Messages(commands[..|commands| - 1]) + if last.Add? then [last.message] else []
  }

  /** Command number `j` is no addition, or one that succeeds. */
  ghost predicate Succeeds(c: Context, chain: seq<Block>, commands: seq<Command>, j: nat)
    requires chain != [] && c.keys.n > 0 && j < |commands|
  {
    commands[j].Add? ==> Addable(c, After(c, chain, commands[..j]), commands[j].message)
  }

  /** The new blocks hold these messages, one each. */
  ghost predicate Holds(chain: seq<Block>, after: seq<Block>, messages: seq<Text>) {
    && |after| == |chain| + |messages|
    && chain <= after
    && forall k :: 0 <= k < |messages| ==> after[|chain| + k].data == [messages[k]]
  }

  lemma Prefixes(commands: seq<Command>, j: nat)
    requires j < |commands|
    ensures commands[..|commands| - 1][..j] == commands[..j]
    ensures j < |commands| - 1 ==> commands[..|commands| - 1][j] == commands[j]
  {
  }

  lemma AddedHolds(c: Context, chain: seq<Block>, before: seq<Block>, message: Text, messages: seq<Text>)
    requires chain != [] && before != [] && c.keys.n > 0
    requires Holds(chain, before, messages)
    ensures Addable(c, before, message) ==> Holds(chain, Added(c, before, message), messages + [message])
    ensures !Addable(c, before, message) ==> Added(c, before, message) == before
  {
    hide Addable, NewBlock;
    var nonce := FoundNonce(c.digest, NextHeader(c, before, [message]));
    NewBlockIndex(c, ToInt32(|before|), before[|before| - 1].hash, nonce, [message]);
    var longer := Added(c, before, message);
    if Addable(c, before, message) {
      assert longer[..|before|] == before;
    }
  }

  /** The messages whose addition succeeds. */
  ghost function Kept(c: Context, chain: seq<Block>, commands: seq<Command>): seq<Text>
    requires chain != [] && c.keys.n > 0
  {
    if commands == [] then []
    else
      var init, last := commands[..|commands| - 1], commands[|commands| - 1];
      Kept(c, chain, init) + if last.Add? && Addable(c, After(c, chain, init), last.message) then [last.message] else []
  }

  /** A run appends one block for each message whose addition succeeds, in order, and
      changes nothing else. */
  lemma {:induction false} RunAppends(c: Context, chain: seq<Block>, commands: seq<Command>)
    requires chain != [] && c.keys.n > 0
    ensures Holds(chain, After(c, chain, commands), Kept(c, chain, commands))
  {
    hide Addable, Added;
    if commands != [] {
      hide Holds;
      var init, last := commands[..|commands| - 1], commands[|commands| - 1];
      RunAppends(c, chain, init);
      var before, kept := After(c, chain, init), Kept(c, chain, init);
      if last.Add? {
        AddedHolds(c, chain, before, last.message, kept);
      }
      assert kept + [] == kept;
    }
  }

  ghost predicate AllSucceed(c: Context, chain: seq<Block>, commands: seq<Command>)
    requires chain != [] && c.keys.n > 0
  {
    forall j: nat :: j < |commands| ==> Succeeds(c, chain, commands, j)
  }

  lemma AllSucceedStep(c: Context, chain: seq<Block>, commands: seq<Command>)
    requires chain != [] && c.keys.n > 0 && commands != []
    ensures AllSucceed(c, chain, commands) <==>
      AllSucceed(c, chain, commands[..|commands| - 1]) && Succeeds(c, chain, commands, |commands| - 1)
  {
    hide Addable, After;
    var init := commands[..|commands| - 1];
    forall j: nat | j < |init| ensures Succeeds(c, chain, commands, j) == Succeeds(c, chain, init, j) {
      Prefixes(commands, j);
    }
  }

  lemma {:induction false} KeptAll(c: Context, chain: seq<Block>, commands: seq<Command>)
    requires chain != [] && c.keys.n > 0
    ensures |Kept(c, chain, commands)| <= |Messages(commands)|
    ensures Kept(c, chain, commands) == Messages(commands) <==> AllSucceed(c, chain, commands)
    ensures |Kept(c, chain, commands)| == |Messages(commands)| ==> Kept(c, chain, commands) == Messages(commands)
  {
    hide Addable, After;
    if commands != [] {
      hide AllSucceed;
      var n := |commands| - 1;
      KeptAll(c, chain, commands[..n]);
      AllSucceedStep(c, chain, commands);
      KeptStep(c, chain, commands);
    }
  }

  lemma KeptStep(c: Context, chain: seq<Block>, commands: seq<Command>)
    requires chain != [] && c.keys.n > 0 && commands != []
    ensures var n := |commands| - 1;
      var more := if commands[n].Add? then [commands[n].message] else [];
      Messages(commands) == Messages(commands[..n]) + more &&
      Kept(c, chain, commands) == Kept(c, chain, commands[..n]) + if Succeeds(c, chain, commands, n) then more else []
  {
    hide Addable, After;
  }

  /** All messages are in the chain, one block each and in order, if and only if every
      search for a nonce succeeds (or the hash with "fail" leads with "00"). */
  lemma RunAddsAll(c: Context, chain: seq<Block>, commands: seq<Command>)
    requires chain != [] && c.keys.n > 0
    ensures Holds(chain, After(c, chain, commands), Messages(commands)) <==> AllSucceed(c, chain, commands)
  {
    hide AllSucceed, After, Kept, Messages;
    RunAppends(c, chain, commands);
    KeptAll(c, chain, commands);
  }

  // ----- links

  lemma AddableLength(c: Context, chain: seq<Block>, message: Text)
    requires chain != [] && Addable(c, chain, message)
    ensures |chain| <= 0x7FFF_FFFF
  {
  }

  lemma AddedLinked(c: Context, chain: seq<Block>, message: Text)
    requires c.Sound() && chain != [] && Linked(c, chain)
    ensures Linked(c, Added(c, chain, message))
  {
    hide Linked, Consistent, Signed, Generated, NewBlock, FoundNonce, Leads, Addable, HeaderFor;
    if Addable(c, chain, message) {
      AddableLength(c, chain, message);
      var latest, nonce := chain[|chain| - 1].hash, FoundNonce(c.digest, NextHeader(c, chain, [message]));
      NextLeads(c, chain, message);
      AddKeepsLinks(c, chain, latest, nonce, [message]);
    }
  }

  /** The next block leads with "00" exactly if the message can be added. */
  lemma NextLeads(c: Context, chain: seq<Block>, message: Text)
    requires chain != [] && c.keys.n > 0 && |chain| <= 0x7FFF_FFFF
    ensures Leads(NextBlock(c, chain, message).hash) <==> Addable(c, chain, message)
  {
    hide HeaderFor, SignatureText, Sha256, Leads, Decimal, FoundNonce;
    var header := NextHeader(c, chain, [message]);
    FoundNonceIs(c.digest, header, FoundNonce(c.digest, header));
  }

  /** A run keeps a linked chain linked, also when it adds blocks with the nonce "fail". */
  lemma {:induction false} RunKeepsLinks(c: Context, chain: seq<Block>, commands: seq<Command>)
    requires c.Sound() && chain != [] && Linked(c, chain)
    ensures Linked(c, After(c, chain, commands))
  {
    hide Linked, Added, Generated;
    if commands != [] {
      var init := commands[..|commands| - 1];
      RunKeepsLinks(c, chain, init);
      if commands[|commands| - 1].Add? {
        AddedLinked(c, After(c, chain, init), commands[|commands| - 1].message);
      }
    }
  }

  // ----- what is shown

  /** Every view shows, at its place in the list, what the chain at that moment gives. */
  lemma {:induction false} RunShows(c: Context, chain: seq<Block>, commands: seq<Command>, j: nat)
    requires chain != [] && c.keys.n > 0 && j < |commands| && commands[j].View?
    ensures var place := |Seen(c, chain, commands[..j])|;
      place < |Seen(c, chain, commands)| &&
      Seen(c, chain, commands)[place] == Viewed(c, After(c, chain, commands[..j]), commands[j].index)
    decreases |commands|
  {
    hide After, Viewed;
    Prefixes(commands, j);
    if j < |commands| - 1 {
      RunShows(c, chain, commands[..|commands| - 1], j);
    }
  }

  /** In a run from a linked chain, a view shows a correct signature exactly for the indices
      below the length that the chain has then, and an error for all others. */
  lemma RunShowsLinked(c: Context, chain: seq<Block>, commands: seq<Command>, j: nat)
    requires c.Sound() && chain != [] && Linked(c, chain) && j < |commands| && commands[j].View?
    ensures var place, length := |Seen(c, chain, commands[..j])|, |After(c, chain, commands[..j])|;
      place < |Seen(c, chain, commands)| &&
      Seen(c, chain, commands)[place] == if 0 <= commands[j].index < length then Ok(true) else Err(InvalidArgument)
  {
    hide Linked, After, Seen, Viewed, Generated;
    RunShows(c, chain, commands, j);
    RunKeepsLinks(c, chain, commands[..j]);
    ViewedLinked(c, After(c, chain, commands[..j]), commands[j].index);
  }

  lemma {:induction false} RunShowsSound(c: Context, chain: seq<Block>, commands: seq<Command>)
    requires c.Sound() && chain != [] && Linked(c, chain)
    ensures forall r :: r in Seen(c, chain, commands) ==> r == Ok(true) || r == Err(InvalidArgument)
  {
    hide Linked, After, Viewed, Generated;
    if commands != [] {
      var init, last := commands[..|commands| - 1], commands[|commands| - 1];
      RunShowsSound(c, chain, init);
      RunKeepsLinks(c, chain, init);
      if last.View? {
        ViewedLinked(c, After(c, chain, init), last.index);
      }
    }
  }

  // ----- the loop

  /** Viewing a block: its header is hashed again and the signature verified against that. */
  method ViewBlock(bc: BlockChain, index: int) returns (r: Result<bool>)
    requires bc.Valid()
    ensures r == Viewed(bc.TheContext(), bc.blockchain, index)
    ensures Linked(bc.TheContext(), bc.blockchain) ==>
      r == if 0 <= index < |bc.blockchain| then Ok(true) else Err(InvalidArgument)
  {
    hide Generated, Accepts, Sha256, Linked, Viewed;
    ghost var c := bc.TheContext();
    if Linked(c, bc.blockchain) {
      ViewedLinked(c, bc.blockchain, index);
    }
    ViewedNone(c, bc.blockchain, index);
    var block := bc.GetBlock(index);
    if block.Err? {
      return Err(InvalidArgument);
    }
    ghost var i :| 0 <= i < |bc.blockchain| && block.value == bc.blockchain[i] && FirstWithIndex(bc.blockchain, i, index);
    ViewedFirst(c, bc.blockchain, i, index);
    var hash := HashString(bc.digest, block.value.header);
    var ok := bc.signer.Verify(hash, block.value.signature);
    return Ok(ok);
  }

  /** Adding a message uses whatever nonce the search gives, even "fail". */
  method AddMessage(bc: BlockChain, message: Text)
    requires bc.Valid() && bc.blockchain != []
    modifies bc`blockchain
    ensures bc.blockchain == Added(bc.TheContext(), old(bc.blockchain), message)
    ensures bc.blockchain != old(bc.blockchain) <==> Addable(bc.TheContext(), old(bc.blockchain), message)
    ensures bc.blockchain == old(bc.blockchain) ||
      (|bc.blockchain| == |old(bc.blockchain)| + 1 && bc.blockchain[|old(bc.blockchain)|].data == [message])
    ensures bc.signer.Sound() && Linked(bc.TheContext(), old(bc.blockchain)) ==> Linked(bc.TheContext(), bc.blockchain)
  {
    hide Generated, NewBlock, Addable, FoundNonce, Leads, Linked;
    ghost var c, chain := bc.TheContext(), bc.blockchain;
    var prevHash := bc.GetLatestBlockHash();
    var index := bc.GetNumOfBlocks();
    var _, nonce := FindHash(bc.digest, index, prevHash, [message]);
    NewBlockIndex(c, index, prevHash, nonce, [message]);
    AcceptedIff(c, chain, message);
    var _ := bc.AddBlock(index, prevHash, nonce, [message]);
    if c.Sound() && Linked(c, chain) {
      AddedLinked(c, chain, message);
    }
  }

  /** What `addBlock` tests of the block is what decides whether the message can be added. */
  lemma AcceptedIff(c: Context, chain: seq<Block>, message: Text)
    requires chain != [] && c.keys.n > 0
    ensures Leads(NextBlock(c, chain, message).hash) && ToInt32(|chain|) == |chain| <==> Addable(c, chain, message)
  {
    hide Leads, NextBlock;
    if |chain| <= 0x7FFF_FFFF {
      NextLeads(c, chain, message);
    }
  }

  /** The loop of the command line: the chain and the views are those of the run. */
  method CommandLoop(bc: BlockChain, commands: seq<Command>) returns (seen: seq<Result<bool>>)
    requires bc.Valid() && bc.blockchain != [] && |commands| == ROUNDS
    modifies bc`blockchain
    ensures bc.blockchain == After(bc.TheContext(), old(bc.blockchain), commands)
    ensures seen == Seen(bc.TheContext(), old(bc.blockchain), commands)
    ensures Holds(old(bc.blockchain), bc.blockchain, Kept(bc.TheContext(), old(bc.blockchain), commands))
    ensures bc.signer.Sound() && Linked(bc.TheContext(), old(bc.blockchain)) ==>
      Linked(bc.TheContext(), bc.blockchain) && forall r :: r in seen ==> r == Ok(true) || r == Err(InvalidArgument)
  {
    hide Generated, Viewed, Added, Linked, Holds, Kept;
    ghost var c, chain := bc.TheContext(), bc.blockchain;
    seen := [];
    for i := 0 to ROUNDS
      invariant bc.blockchain == After(c, chain, commands[..i])
      invariant seen == Seen(c, chain, commands[..i])
    {
      assert commands[..i + 1][..i] == commands[..i];
      match commands[i]
      case View(index) =>
        var r := ViewBlock(bc, index);
        seen := seen + [r];
      case Add(message) =>
        AddMessage(bc, message);
      case Other =>
    }
    assert commands[..ROUNDS] == commands;
    RunAppends(c, chain, commands);
    if c.Sound() && Linked(c, chain) {
      RunKeepsLinks(c, chain, commands);
      RunShowsSound(c, chain, commands);
    }
  }
}
