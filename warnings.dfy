/**
 * The warnings ledger: a map from a member's id, rendered as a decimal
 * string, to that member's warnings in the order they were given. The
 * `warn`, `warnings` and `clearwarn` commands each load the whole map,
 * change or read one entry, and (for the two changing ones) save the
 * whole map back.
 */
module Warnings {
  import opened Wrappers
  import opened Text
  import opened Guild

  /** One warning record: the reason, the id of the moderator who gave it, and when. */
  datatype Warning = Warning(reason: string, givenBy: nat, time: string)

  /** The contents of the warnings file. */
  type Ledger = map<string, seq<Warning>>

  /** The reason stored when `warn` is given none. */
  const DefaultReason := "No reason provided"

  /** The listing shown for a member without warnings. */
  const NoWarnings := "No warnings."

  /** The ledger key of a member: `str(member.id)`, which reads back as the id. */
  function Key(id: nat): (k: string)
    ensures AllDigits(k) && StringToNat(k) == id
  {
    NatToStringRoundTrip(id);
    NatToString(id)
  }

  /** Two members share a ledger entry only if they are the same member. */
  lemma KeyInjective(a: nat, b: nat)
    ensures Key(a) == Key(b) <==> a == b
  {
    NatToStringInjective(a, b);
  }

  /** `warnings.get(k, [])`: empty exactly when the key is missing or holds no warnings. */
  function Get(m: Ledger, k: string): (ws: seq<Warning>)
    ensures ws == [] <==> k !in m || m[k] == []
    ensures ws != [] ==> ws == m[k]
  {
    if k in m then m[k] else []
  }

  /**
   * The ledger after one warning `w` for key `k`: the entry is created if
   * missing, grows by exactly `w` at the end, and no other entry changes.
   */
  function Warned(m: Ledger, k: string, w: Warning): (r: Ledger)
    ensures r.Keys == m.Keys + {k}
    ensures |r[k]| == |Get(m, k)| + 1 && r[k][|Get(m, k)|] == w
    ensures Get(m, k) <= r[k]
    ensures k !in m ==> r[k] == [w]
    ensures forall k' :: k' in m && k' != k ==> r[k'] == m[k']
  {
    m[k := Get(m, k) + [w]]
  }

  /** The ledger after clearing key `k`: the key maps to no warnings, nothing else changes. */
  function Cleared(m: Ledger, k: string): (r: Ledger)
    ensures r.Keys == m.Keys + {k}
    ensures r[k] == [] && Get(r, k) == []
    ensures forall k' :: k' in m && k' != k ==> r[k'] == m[k']
  {
    m[k := []]
  }

  lemma ClearedIdempotent(m: Ledger, k: string)
    ensures Cleared(Cleared(m, k), k) == Cleared(m, k)
  {
  }

  /** The ledger after warning key `k` with each of `ws`, in order. */
  function WarnedAll(m: Ledger, k: string, ws: seq<Warning>): Ledger
    decreases |ws|
  {
    if ws == [] then m else WarnedAll(Warned(m, k, ws[0]), k, ws[1..])
  }

  /** Successive warnings accumulate in the order they were given. */
  lemma {:induction false} WarnedAllAppends(m: Ledger, k: string, ws: seq<Warning>)
    ensures Get(WarnedAll(m, k, ws), k) == Get(m, k) + ws
    ensures forall k' :: k' != k ==> Get(WarnedAll(m, k, ws), k') == Get(m, k')
    decreases |ws|
  {
    if ws != [] {
      WarnedAllAppends(Warned(m, k, ws[0]), k, ws[1..]);
      assert [ws[0]] + ws[1..] == ws;
    }
  }

  /** Clearing after any number of warnings leaves the entry empty again. */
  lemma ClearAfterWarnings(m: Ledger, k: string, ws: seq<Warning>)
    ensures Get(Cleared(WarnedAll(m, k, ws), k), k) == []
    ensures Get(WarnedAll(Cleared(m, k), k, ws), k) == ws
  {
    WarnedAllAppends(Cleared(m, k), k, ws);
  }

  /**
   * Line `n` of a listing: `"<n>. <reason> (by <@<by>>)"`. It starts with a
   * digit and breaks only where its reason does.
   */
  function Line(n: nat, w: Warning): (line: string)
    ensures |line| > 0 && IsDigit(line[0])
    ensures '\n' !in w.reason ==> '\n' !in line
  {
    NatToString(n) + ". " + w.reason + " (by <@" + NatToString(w.givenBy) + ">)"
  }

  /** The lines for `ws`, numbered from `from` upwards in order. */
  function Numbered(ws: seq<Warning>, from: nat): (lines: seq<string>)
    ensures |lines| == |ws|
    ensures forall i :: 0 <= i < |ws| ==> lines[i] == Line(from + i, ws[i])
    decreases |ws|
  {
    if ws == [] then [] else [Line(from, ws[0])] + Numbered(ws[1..], from + 1)
  }

  /** The text the `warnings` command shows for a member's warnings. */
  function Listing(ws: seq<Warning>): (text: string)
    ensures text == NoWarnings <==> ws == []
  {
    if ws == [] then NoWarnings
    else
      Join(Numbered(ws, 1), '\n')
  }

  /**
   * A non-empty listing has exactly one line per warning, in the order
   * given, the line for `ws[i]` being numbered `i + 1`; this holds when
   * no reason itself holds a line break.
   */
  lemma ListingLines(ws: seq<Warning>)
    requires ws != []
    requires forall i :: 0 <= i < |ws| ==> '\n' !in ws[i].reason
    ensures |Split(Listing(ws), '\n')| == |ws|
    ensures forall i :: 0 <= i < |ws| ==> Split(Listing(ws), '\n')[i] == Line(i + 1, ws[i])
  {
    SplitJoin(Numbered(ws, 1), '\n');
  }

  /** The warnings file, loaded and saved whole. */
  class WarningsFile {
    var contents: Ledger

    /** Opens the file holding `stored`; a file created empty holds `map[]`. */
    constructor (stored: Ledger)
      ensures contents == stored
    {
      contents := stored;
    }

    /** `load_warnings()`. */
    method Load() returns (data: Ledger)
      ensures data == contents
    {
      data := contents;
    }

    /** `save_warnings(data)`. */
    method Save(data: Ledger)
      modifies this
      ensures contents == data
    {
      contents := data;
    }

    /**
     * `/warn member reason`: for a moderator, records a warning by the
     * invoker against the member and saves; for anyone else, nothing.
     */
    method Warn(invoker: Member, member: Member, reason: Option<string>, time: string)
      returns (ok: bool)
      modifies this
      ensures ok == IsModerator(invoker.roles)
      ensures contents == if ok
        then Warned(old(contents), Key(member.id), Warning(reason.GetOr(DefaultReason), invoker.id, time))
        else old(contents)
    {
      ok := IsModerator(invoker.roles);
      if !ok {
        return;
      }
      var warnings := Load();
      var memberId := Key(member.id);
      if memberId !in warnings {
        warnings := warnings[memberId := []];
      }
      warnings := warnings[memberId := warnings[memberId] + [Warning(reason.GetOr(DefaultReason), invoker.id, time)]];
      Save(warnings);
    }

    /**
     * `/warnings member`: for a moderator, the listing of the member's
     * warnings, `NoWarnings` exactly when there are none; the file is not
     * changed.
     */
    method WarningsCmd(invoker: Member, member: Member) returns (ok: bool, text: string)
      ensures ok == IsModerator(invoker.roles)
      ensures ok ==> text == Listing(Get(contents, Key(member.id)))
      ensures !ok ==> text == ""
    {
      ok := IsModerator(invoker.roles);
      text := "";
      if !ok {
        return;
      }
      var warnings := Load();
      var memberId := Key(member.id);
      var memberWarns := Get(warnings, memberId);
      if memberWarns == [] {
        text := NoWarnings;
      } else {
        text := Join(Numbered(memberWarns, 1), '\n');
      }
    }

    /**
     * `/clearwarn member`: for a moderator, the member's entry becomes the
     * empty list and the file is saved; for anyone else, nothing.
     */
    method ClearWarn(invoker: Member, member: Member) returns (ok: bool)
      modifies this
      ensures ok == IsModerator(invoker.roles)
      ensures contents == if ok then Cleared(old(contents), Key(member.id)) else old(contents)
    {
      ok := IsModerator(invoker.roles);
      if !ok {
        return;
      }
      var warnings := Load();
      var memberId := Key(member.id);
      warnings := warnings[memberId := []];
      Save(warnings);
    }
  }
}
