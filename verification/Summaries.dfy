// The summary store as the program keeps it: maps from chat to chain and to next
// number, filled on first touch, over a database table of archived summaries.
// StoreOf reads one chat of it as a value of SummarySpec.
module Summaries {
  import opened Options
  import opened SummarySpec

  // What the first query of a chat answers.
  datatype Listing = Listed(sums: seq<Summary>) | QueryFailed

  class SummaryStore {
    var chains: map<string, seq<Summary>>
    var nextSeq: map<string, int>
    var archives: map<string, Archive>  // the table, by chat

    ghost predicate Valid()
      reads this
    {
      chains.Keys == nextSeq.Keys
    }

    function ArchiveOf(chat: string): Archive
      reads this
    {
      if chat in archives then archives[chat] else map[]
    }

    ghost function StoreOf(chat: string): Store
      requires Valid()
      reads this
    {
      if chat in chains then Store(true, chains[chat], nextSeq[chat], ArchiveOf(chat))
      else Store(false, [], 0, ArchiveOf(chat))
    }

    // The table answers with its newest entries, or the query fails.
    ghost predicate Answers(chat: string, listing: Listing)
      reads this
    {
      listing.Listed? ==> listing.sums == Newest(ArchiveOf(chat), RELOAD_LIMIT)
    }

    twostate predicate OthersUnchanged(chat: string)
      requires old(Valid()) && Valid()
      reads this
    {
      forall k | k != chat :: StoreOf(k) == old(StoreOf(k))
    }

    constructor (archives: map<string, Archive>)
      ensures Valid() && this.archives == archives && chains == map[]
    {
      chains, nextSeq := map[], map[];
      this.archives := archives;
    }

    method EnsureLoaded(chat: string, listing: Listing)
      requires Valid() && Answers(chat, listing)
      modifies this`chains, this`nextSeq
      ensures Valid() && chat in chains && OthersUnchanged(chat)
      ensures StoreOf(chat) == Load(old(StoreOf(chat)), listing.Listed?)
    {
      if chat in chains { return; }
      var sums := if listing.Listed? then listing.sums else [];
      var maxSeq := 0;
      for i := 0 to |sums|
        invariant maxSeq == MaxSeq(sums[..i])
      {
        assert sums[..i + 1][..i] == sums[..i];
        if sums[i].seqNo > maxSeq { maxSeq := sums[i].seqNo; }
      }
      assert sums[..|sums|] == sums;
      chains, nextSeq := chains[chat := sums], nextSeq[chat := maxSeq + 1];
    }

    method Append(chat: string, listing: Listing, c: Content) returns (sum: Summary)
      requires Valid() && Answers(chat, listing)
      modifies this
      ensures Valid() && OthersUnchanged(chat)
      ensures StoreOf(chat) == Add(Load(old(StoreOf(chat)), listing.Listed?), c)
      ensures StoreOf(chat).chain == Load(old(StoreOf(chat)), listing.Listed?).chain + [sum]
    {
      EnsureLoaded(chat, listing);
      sum := Summary(nextSeq[chat], c);
      nextSeq := nextSeq[chat := nextSeq[chat] + 1];
      chains := chains[chat := chains[chat] + [sum]];
    }

    // SaveSummary; a failed write is logged and otherwise ignored.
    method SaveOne(chat: string, s: Summary, failed: set<int>)
      requires Valid()
      modifies this`archives
      ensures Valid() && OthersUnchanged(chat)
      ensures ArchiveOf(chat) == Save(old(ArchiveOf(chat)), s, failed)
    {
      if s.seqNo !in failed {
        archives := archives[chat := ArchiveOf(chat)[s.seqNo := s]];
      }
    }

    method SaveEach(chat: string, chain: seq<Summary>, failed: set<int>)
      requires Valid()
      modifies this`archives
      ensures Valid() && OthersUnchanged(chat)
      ensures ArchiveOf(chat) == SaveAll(old(ArchiveOf(chat)), chain, failed)
    {
      for i := 0 to |chain|
        invariant Valid() && OthersUnchanged(chat)
        invariant ArchiveOf(chat) == SaveAll(old(ArchiveOf(chat)), chain[..i], failed)
      {
        assert chain[..i + 1][..i] == chain[..i];
        SaveOne(chat, chain[i], failed);
      }
      assert chain[..|chain|] == chain;
    }

    method ReplaceWithFused(chat: string, listing: Listing, c: Content, failed: set<int>) returns (fused: Summary)
      requires Valid() && Answers(chat, listing)
      modifies this
      ensures Valid() && OthersUnchanged(chat)
      ensures StoreOf(chat) == Fuse(Load(old(StoreOf(chat)), listing.Listed?), c, failed)
      ensures StoreOf(chat).chain == [fused]
    {
      EnsureLoaded(chat, listing);
      SaveEach(chat, chains[chat], failed);
      fused := Summary(nextSeq[chat], c);
      nextSeq := nextSeq[chat := nextSeq[chat] + 1];
      chains := chains[chat := [fused]];
    }

    method EvictOldest(chat: string, listing: Listing, failed: set<int>) returns (evicted: Option<Summary>)
      requires Valid() && Answers(chat, listing)
      modifies this
      ensures Valid() && OthersUnchanged(chat)
      ensures StoreOf(chat) == Evict(Load(old(StoreOf(chat)), listing.Listed?), failed)
      ensures var chain := Load(old(StoreOf(chat)), listing.Listed?).chain;
              evicted == if chain == [] then None else Some(chain[0])
    {
      EnsureLoaded(chat, listing);
      var chain := chains[chat];
      if |chain| == 0 { return None; }
      SaveOne(chat, chain[0], failed);
      chains := chains[chat := chain[1..]];
      return Some(chain[0]);
    }

    method GetAll(chat: string, listing: Listing) returns (out: seq<Summary>)
      requires Valid() && Answers(chat, listing)
      modifies this`chains, this`nextSeq
      ensures Valid() && OthersUnchanged(chat) && chat in chains
      ensures StoreOf(chat) == Load(old(StoreOf(chat)), listing.Listed?)
      ensures out == StoreOf(chat).chain
    {
      EnsureLoaded(chat, listing);
      out := chains[chat];
    }
  }
}
