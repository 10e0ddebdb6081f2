// The per-session window as the program keeps it: a slice (a stretch of a
// backing array), appended to, resliced and filtered in place, whose messages
// refer to arrays of parts. Contents reads it as a value of WindowSpec.
module Window {
  import opened WindowSpec

  datatype Message = Message(id: string, user: string, parts: array?<Part>)

  function View(m: Message): Msg
    reads m.parts
  {
    Msg(m.id, m.user, if m.parts == null then [] else m.parts[..])
  }

  ghost function PartArrays(ms: seq<Message>): set<object>
  {
    set m | m in ms && m.parts != null :: m.parts
  }

  function Views(ms: seq<Message>): (v: seq<Msg>)
    reads PartArrays(ms)
    ensures |v| == |ms|
  {
    seq(|ms|, i requires 0 <= i < |ms| reads PartArrays(ms) => View(ms[i]))
  }

  lemma ViewsConcat(a: seq<Message>, b: seq<Message>)
    ensures Views(a + b) == Views(a) + Views(b)
  {
    assert forall m | m in a + b :: m in a || m in b;
  }

  lemma ViewsSlice(ms: seq<Message>, lo: nat, hi: nat)
    requires lo <= hi <= |ms|
    ensures Views(ms[lo..hi]) == Views(ms)[lo..hi]
  {
  }

  // Appending and evicting on messages is appending and evicting on their values.
  lemma ViewsOfAppend(d: seq<Message>, msg: Message)
    ensures Views(LastN(d + [msg], WINDOW_CAP)) == Appended(Views(d), View(msg))
  {
    var all := d + [msg];
    ViewsConcat(d, [msg]);
    assert Views([msg]) == [View(msg)];
    if |all| > WINDOW_CAP { ViewsSlice(all, |all| - WINDOW_CAP, |all|); }
    assert all[|all| - |LastN(all, WINDOW_CAP)|..|all|] == LastN(all, WINDOW_CAP);
  }

  // The messages the in-place filter keeps.
  ghost function Keep(ms: seq<Message>, ids: set<string>): (r: seq<Message>)
    ensures |r| <= |ms|
  {
    if ms == [] then []
    else
      var n := |ms| - 1;
      Keep(ms[..n], ids) + if ms[n].id in ids then [] else [ms[n]]
  }

  lemma {:induction false} ViewsOfKeep(ms: seq<Message>, ids: set<string>)
    ensures Views(Keep(ms, ids)) == Without(Views(ms), ids)
  {
    if ms != [] {
      var n := |ms| - 1;
      ViewsOfKeep(ms[..n], ids);
      ViewsSlice(ms, 0, n);
      assert ms[..n] == ms[0..n];
      ViewsConcat(Keep(ms[..n], ids), if ms[n].id in ids then [] else [ms[n]]);
      assert Views([ms[n]]) == [View(ms[n])];
    }
  }

  ghost predicate IsCopy(copy: Message, m: Message)
    reads copy.parts, m.parts
  {
    && copy.id == m.id && copy.user == m.user
    && (copy.parts == null <==> m.parts == null)
    && (copy.parts != null ==> copy.parts[..] == m.parts[..])
  }

  method CopyMessage(m: Message) returns (copy: Message)
    ensures IsCopy(copy, m) && (copy.parts != null ==> fresh(copy.parts))
  {
    copy := m;
    var src := m.parts;
    if src != null {
      var parts := new Part[src.Length](k requires 0 <= k < src.Length reads src => src[k]);
      copy := copy.(parts := parts);
    }
  }

  class SessionWindow {
    var buf: array<Message>
    var off: nat
    var len: nat

    ghost predicate Valid()
      reads this
    {
      off + len <= buf.Length && len <= WINDOW_CAP
    }

    function Data(): (d: seq<Message>)
      requires Valid()
      reads this, buf
    {
      buf[off..off + len]
    }

    function Contents(): (c: seq<Msg>)
      requires Valid()
      reads this, buf, PartArrays(Data())
    {
      Views(Data())
    }

    constructor ()
      ensures Valid() && Contents() == [] && fresh(buf)
    {
      buf, off, len := new Message[0], 0, 0;
    }

    // Go's append: in place while the backing array has room behind the slice,
    // else into a larger array of some capacity.
    method Extend(msg: Message)
      requires off + len <= buf.Length
      modifies this, buf
      ensures off + len <= buf.Length && len == old(len) + 1
      ensures buf[off..off + len] == old(buf[off..off + len]) + [msg]
      ensures buf == old(buf) || fresh(buf)
    {
      ghost var before := buf[off..off + len];
      if off + len < buf.Length {
        buf[off + len] := msg;
        assert buf[off..off + len] == before;
      } else {
        var capacity: nat :| capacity > len;
        var bigger := new Message[capacity](i requires 0 <= i < capacity && off + len <= buf.Length reads this, buf =>
                                              if i < len then buf[off + i] else msg);
        buf, off := bigger, 0;
        assert buf[0..len] == before;
      }
      len := len + 1;
      assert buf[off..off + len] == buf[off..off + len - 1] + [msg];
    }

    method AppendMessage(msg: Message) returns (full: bool)
      requires Valid()
      modifies this, buf
      ensures Valid() && (buf == old(buf) || fresh(buf))
      ensures Data() == LastN(old(Data()) + [msg], WINDOW_CAP)
      ensures Contents() == Appended(old(Contents()), View(msg))
      ensures full <==> |old(Data())| + 1 >= WINDOW_CAP
    {
      ghost var before := Data();
      full := Push(msg);
      ViewsOfAppend(before, msg);
      assert Views(before) == old(Views(before));
    }

    method Push(msg: Message) returns (full: bool)
      requires Valid()
      modifies this, buf
      ensures Valid() && (buf == old(buf) || fresh(buf))
      ensures Data() == LastN(old(Data()) + [msg], WINDOW_CAP)
      ensures full <==> |old(Data())| + 1 >= WINDOW_CAP
    {
      Extend(msg);
      full := false;
      if len >= WINDOW_CAP {
        full := true;
        if len > WINDOW_CAP {
          off, len := off + (len - WINDOW_CAP), WINDOW_CAP;
        }
      }
    }

    // A deep copy: the messages are in a fresh array and their parts in fresh
    // arrays, all different, so whatever the caller writes to the copy leaves
    // the window alone.
    method GetWindow() returns (out: array<Message>)
      requires Valid()
      ensures fresh(out) && out.Length == len
      ensures forall i | 0 <= i < len ::
                && out[i].id == Data()[i].id && out[i].user == Data()[i].user
                && (out[i].parts == null <==> Data()[i].parts == null)
                && (out[i].parts != null ==> fresh(out[i].parts) && out[i].parts[..] == Data()[i].parts[..])
      ensures forall i, j | 0 <= i < j < len && out[i].parts != null :: out[i].parts != out[j].parts
    {
      var data := Data();
      out := new Message[len](i requires 0 <= i < |data| => data[i]);
      for i := 0 to len
        modifies out
        invariant forall k | 0 <= k < i :: IsCopy(out[k], data[k]) && (out[k].parts != null ==> fresh(out[k].parts))
        invariant forall k | i <= k < len :: out[k] == data[k]
        invariant forall j, k | 0 <= j < k < i && out[j].parts != null :: out[j].parts != out[k].parts
      {
        out[i] := CopyMessage(data[i]);
      }
    }

    // Message i gets a copy of the parts for its own.
    method StoreParts(i: nat, parts: array<Part>)
      requires Valid() && i < len
      modifies buf
      ensures Valid() && Data()[i].parts != null && fresh(Data()[i].parts) && Data()[i].parts[..] == parts[..]
      ensures Data() == old(Data())[i := old(Data())[i].(parts := Data()[i].parts)]
      ensures Contents() == old(Views(Data()[i := Data()[i].(parts := parts)]))
    {
      ghost var d := Data();
      var copy := new Part[parts.Length](k requires 0 <= k < parts.Length reads parts => parts[k]);
      buf[off + i] := buf[off + i].(parts := copy);
      assert copy[..] == parts[..];
      assert Data() == d[i := d[i].(parts := copy)];
      assert Views(d) == old(Views(d));
    }

    // The description is stored in a copy of its own.
    method BackfillParts(messageID: string, parts: array<Part>) returns (ghost hit: int)
      requires Valid()
      modifies buf
      ensures Valid()
      ensures hit < 0 ==>
        Data() == old(Data()) && (messageID == "" || forall k | 0 <= k < len :: Data()[k].id != messageID)
      ensures hit >= 0 ==>
        && hit < len && messageID != "" && old(Data())[hit].id == messageID
        && (forall k | 0 <= k < hit :: old(Data())[k].id != messageID)
        && Data()[hit].parts != null && fresh(Data()[hit].parts) && Data()[hit].parts[..] == parts[..]
        && Data() == old(Data())[hit := old(Data())[hit].(parts := Data()[hit].parts)]
      ensures Contents() ==
              if messageID == "" then old(Contents()) else Backfilled(old(Contents()), messageID, parts[..])
    {
      hit := -1;
      if messageID == "" { return; }
      ghost var before := Data();
      for i := 0 to len
        invariant Data() == old(Data()) && hit == -1
        invariant forall k | 0 <= k < i :: Data()[k].id != messageID
      {
        if buf[off + i].id == messageID {
          ViewsOfBackfill(before, i, messageID, parts);
          StoreParts(i, parts);
          hit := i;
          return;
        }
      }
      BackfilledMisses(Contents(), messageID, parts[..]);
    }

    method RemoveByIDs(ids: seq<string>) returns (removed: nat)
      requires Valid()
      modifies this`len, buf
      ensures Valid()
      ensures Data() == Keep(old(Data()), set id | id in ids)
      ensures Contents() == Without(old(Contents()), set id | id in ids)
      ensures removed == |old(Data())| - |Data()|
    {
      hide Keep, Without;
      var idSet := set id | id in ids;
      ghost var before := Data();
      if |ids| == 0 {
        KeepAll(before, idSet);
        ViewsOfKeep(before, idSet);
        return 0;
      }
      removed := Filter(idSet);
      ViewsOfKeep(before, idSet);
      assert Views(before) == old(Views(before));
    }

    method Filter(idSet: set<string>) returns (removed: nat)
      requires Valid()
      modifies this`len, buf
      ensures Valid() && Data() == Keep(old(Data()), idSet) && removed == |old(Data())| - |Data()|
    {
      var kept := FilterInPlace(buf, off, len, idSet);
      removed := len - kept;
      len := kept;
    }
  }

  // The in-place filter: kept messages move to the front of their stretch of
  // the array they are read from.
  method FilterInPlace(buf: array<Message>, off: nat, n: nat, ids: set<string>) returns (kept: nat)
    requires off + n <= buf.Length
    modifies buf
    ensures kept <= n && buf[off..off + kept] == Keep(old(buf[off..off + n]), ids)
  {
    kept := 0;
    ghost var before := buf[off..off + n];
    for i := 0 to n
      invariant kept <= i && |Keep(before[..i], ids)| == kept
      invariant forall k | i <= k < n :: buf[off + k] == before[k]
      invariant forall k | 0 <= k < kept :: buf[off + k] == Keep(before[..i], ids)[k]
    {
      KeepStep(before, i, ids);
      if buf[off + i].id !in ids {
        buf[off + kept] := buf[off + i];
        kept := kept + 1;
      }
    }
    assert before[..n] == before;
  }

  lemma KeepStep(ms: seq<Message>, i: nat, ids: set<string>)
    requires i < |ms|
    ensures Keep(ms[..i + 1], ids) == Keep(ms[..i], ids) + if ms[i].id in ids then [] else [ms[i]]
  {
    assert ms[..i + 1][..i] == ms[..i];
  }

  lemma {:induction false} KeepAll(ms: seq<Message>, ids: set<string>)
    requires ids == {}
    ensures Keep(ms, ids) == ms
  {
    if ms != [] {
      KeepAll(ms[..|ms| - 1], ids);
      assert ms == ms[..|ms| - 1] + [ms[|ms| - 1]];
    }
  }

  lemma {:induction false} BackfilledAt(w: seq<Msg>, id: string, parts: seq<Part>, i: nat)
    requires i < |w| && w[i].id == id && forall k | 0 <= k < i :: w[k].id != id
    ensures Backfilled(w, id, parts) == w[i := w[i].(parts := parts)]
  {
    if i > 0 { BackfilledAt(w[1..], id, parts, i - 1); }
  }

  lemma {:induction false} BackfilledMisses(w: seq<Msg>, id: string, parts: seq<Part>)
    requires forall k | 0 <= k < |w| :: w[k].id != id
    ensures Backfilled(w, id, parts) == w
  {
    if w != [] { BackfilledMisses(w[1..], id, parts); }
  }

  // Backfilling on messages is backfilling on their values.
  lemma ViewsOfBackfill(d: seq<Message>, hit: nat, id: string, parts: array<Part>)
    requires hit < |d| && d[hit].id == id && forall k | 0 <= k < hit :: d[k].id != id
    ensures Views(d[hit := d[hit].(parts := parts)]) == Backfilled(Views(d), id, parts[..])
  {
    BackfilledAt(Views(d), id, parts[..], hit);
  }

  // The registry: one window per session.
  class Window {
    var sessions: map<string, SessionWindow>

    ghost function Footprint(): set<object>
      reads this, sessions.Values
    {
      sessions.Values + set w | w in sessions.Values :: w.buf
    }

    ghost predicate Valid()
      reads this, sessions.Values
    {
      && (forall k | k in sessions :: sessions[k].Valid())
      && (forall j, k | j in sessions && k in sessions && j != k ::
            sessions[j] != sessions[k] && sessions[j].buf != sessions[k].buf)
    }

    ghost function DataOf(k: string): seq<Message>
      requires Valid()
      reads this, sessions.Values, Footprint()
    {
      if k in sessions then sessions[k].Data() else []
    }

    ghost function ContentsOf(k: string): seq<Msg>
      requires Valid()
      reads this, sessions.Values, Footprint(), PartArrays(DataOf(k))
    {
      Views(DataOf(k))
    }

    constructor ()
      ensures Valid() && sessions == map[]
    {
      sessions := map[];
    }

    // The session's window, created on first use.
    method LoadOrStore(sessionID: string) returns (w: SessionWindow)
      requires Valid()
      modifies this
      ensures Valid() && sessionID in sessions && w == sessions[sessionID]
      ensures sessions.Keys == old(sessions.Keys) + {sessionID}
      ensures forall k :: DataOf(k) == old(DataOf(k))
      ensures ContentsOf(sessionID) == old(ContentsOf(sessionID))
      ensures (w in old(Footprint()) && w.buf in old(Footprint())) || (fresh(w) && fresh(w.buf))
    {
      if sessionID !in sessions {
        w := new SessionWindow();
        sessions := sessions[sessionID := w];
      } else {
        w := sessions[sessionID];
      }
    }

    // Appending to one window leaves the others as they are.
    method AppendLocked(sessionID: string, msg: Message) returns (full: bool)
      requires Valid() && sessionID in sessions
      modifies sessions[sessionID], sessions[sessionID].buf
      ensures Valid()
      ensures DataOf(sessionID) == LastN(old(DataOf(sessionID)) + [msg], WINDOW_CAP)
      ensures ContentsOf(sessionID) == Appended(old(ContentsOf(sessionID)), View(msg))
      ensures full <==> |old(DataOf(sessionID))| + 1 >= WINDOW_CAP
      ensures forall k | k != sessionID :: DataOf(k) == old(DataOf(k))
    {
      full := sessions[sessionID].AppendMessage(msg);
    }

    method AppendToSession(sessionID: string, msg: Message) returns (full: bool)
      requires Valid()
      modifies this, Footprint()
      ensures Valid() && sessions.Keys == old(sessions.Keys) + {sessionID}
      ensures DataOf(sessionID) == LastN(old(DataOf(sessionID)) + [msg], WINDOW_CAP)
      ensures ContentsOf(sessionID) == Appended(old(ContentsOf(sessionID)), View(msg))
      ensures full <==> |old(DataOf(sessionID))| + 1 >= WINDOW_CAP
      ensures forall k | k != sessionID :: DataOf(k) == old(DataOf(k))
    {
      var w := LoadOrStore(sessionID);
      full := AppendLocked(sessionID, msg);
    }

    // A session that does not exist reads as empty.
    method GetWindow(sessionID: string) returns (out: array<Message>)
      requires Valid()
      ensures fresh(out) && out.Length == |DataOf(sessionID)|
      ensures forall i | 0 <= i < out.Length ::
                && IsCopy(out[i], DataOf(sessionID)[i])
                && (out[i].parts != null ==> fresh(out[i].parts))
      ensures forall i, j | 0 <= i < j < out.Length && out[i].parts != null :: out[i].parts != out[j].parts
    {
      if sessionID in sessions {
        out := sessions[sessionID].GetWindow();
      } else {
        out := new Message[0];
      }
    }

    method RemoveByIDs(sessionID: string, ids: seq<string>) returns (removed: nat)
      requires Valid()
      modifies Footprint()
      ensures Valid() && sessions == old(sessions)
      ensures DataOf(sessionID) == Keep(old(DataOf(sessionID)), set id | id in ids)
      ensures ContentsOf(sessionID) == Without(old(ContentsOf(sessionID)), set id | id in ids)
      ensures removed == |old(DataOf(sessionID))| - |DataOf(sessionID)|
      ensures forall k | k != sessionID :: DataOf(k) == old(DataOf(k))
    {
      removed := 0;
      if sessionID in sessions {
        removed := sessions[sessionID].RemoveByIDs(ids);
      }
    }
  }

  lemma ContentsAreBounded(window: Window, k: string)
    requires window.Valid()
    ensures |window.ContentsOf(k)| == |window.DataOf(k)| <= WINDOW_CAP
  {
    if k in window.sessions { assert window.sessions[k].Valid(); }
  }
}
