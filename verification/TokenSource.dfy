/** The OBS source, the registry's main client: it follows the token in its settings
    (src/source.c:195-219, 244-277). Other threads may take any number of steps between any two of
    its calls' critical sections. */
module TokenSource {
  import opened Common
  import opened Registry
  import opened RegistryRuns
  import opened SessionTable

  /** `sub` is a counted subscription to the live session `s`, which serves `token`. */
  ghost predicate Subscribes(sys: Sys, sub: nat, s: nat, token: string) {
    && sub in sys.refs && sys.refs[sub] == Subscribed(s)
    && s in sys.heap && sys.heap[s].token == token
  }

  class Source {
    var token: Option<string>
    var session: Option<nat>
    var sub: Option<nat>

    /** The source holds a subscription exactly if it is attached, on a live session of its token. */
    ghost predicate Attached(sys: Sys)
      reads this
    {
      && (sub.None? <==> session.None?)
      && token != Some("")
      && (sub.Some? ==> token.Some? && Subscribes(sys, sub.value, session.value, token.value))
    }

    constructor ()
      ensures token.None? && session.None? && sub.None?
    {
      token, session, sub := None, None, None;
    }

    /** `tether_receive_session_unsubscribe`, and the source forgets its session. */
    method Unsubscribe(table: Table, meanwhile: seq<seq<Event>>)
      requires table.Valid() && Attached(table.Model()) && sub.Some? && |meanwhile| == 2
      modifies this, table
      ensures table.Valid() && sub.None? && session.None? && token == old(token)
      ensures Gone(table.Model(), old(sub.value))
    {
      hide table.Valid, Gone, Framed;
      var p := sub.value;
      table.UnsubscribeErase(p);
      table.Meanwhile(meanwhile[0], {p});
      var _ := table.ReleaseRef(p);
      table.Meanwhile(meanwhile[1], {});
      sub, session := None, None;
    }

    /** `tether_receive_session_subscribe` on the session just got, after which the handle is given
        back. */
    method Subscribe(table: Table, h: nat, text: string, meanwhile: seq<seq<Event>>) returns (p: nat)
      requires table.Valid() && HoldsToken(table.Model(), h, text) && |meanwhile| == 3
      modifies table
      ensures table.Valid() && Gone(table.Model(), h)
      ensures Subscribes(table.Model(), p, old(table.refs[h].session), text)
      ensures forall q :: old(Gone(table.Model(), q)) ==> Gone(table.Model(), q)
    {
      hide table.Valid, Gone;
      p := table.SubscribePush(h);
      table.Meanwhile(meanwhile[0], {h});
      table.SubscribeBump(h);
      table.Meanwhile(meanwhile[1], {h, p});
      var _ := table.ReleaseRef(h);
      table.Meanwhile(meanwhile[2], {p});
    }

    /** The rest of `attach_session`: get the session of the token and subscribe to it. */
    method Follow(table: Table, text: string, ok: bool, meanwhile: seq<seq<Event>>) returns (handle: Option<nat>)
      requires table.Valid() && text != "" && token == Some(text) && session.None? && sub.None? && |meanwhile| == 4
      modifies this, table
      ensures table.Valid() && Attached(table.Model()) && token == Some(text)
      ensures handle.Some? <==> sub.Some?
      ensures sub.Some? <==> old(Obtainable(table.Model(), text, ok))
      ensures handle.Some? ==> Gone(table.Model(), handle.value)
      ensures forall p :: old(Gone(table.Model(), p)) ==> Gone(table.Model(), p)
    {
      hide table.Valid, Gone;
      handle := table.Get(text, ok);
      if handle.None? {
        return;
      }
      session := Some(table.refs[handle.value].session);
      table.Meanwhile(meanwhile[0], {handle.value});
      var p := Subscribe(table, handle.value, text, meanwhile[1..]);
      sub := Some(p);
    }

    /** `attach_session`: the old subscription, if any, is gone afterwards, and so is the handle taken in
        passing; what remains is one subscription to the session of the new token, exactly if there is a
        token and, when it is asked for in state `at`, that session lives or can be made. */
    method Attach(table: Table, text: string, ok: bool, meanwhile: seq<seq<Event>>)
      returns (handle: Option<nat>, ghost at: Sys)
      requires table.Valid() && Attached(table.Model()) && |meanwhile| == 6
      modifies this, table
      ensures table.Valid() && Attached(table.Model())
      ensures token == if text == "" then None else Some(text)
      ensures forall s :: s in at.table ==> s in at.heap
      ensures sub.Some? <==> Obtainable(at, text, ok)
      ensures text != "" && Creatable(text, ok) ==> sub.Some?
      ensures old(sub).None? ==> at == old(table.Model())
      ensures old(sub).Some? ==> Gone(at, old(sub).value) && Gone(table.Model(), old(sub).value)
      ensures handle.Some? <==> sub.Some?
      ensures handle.Some? ==> Gone(table.Model(), handle.value)
    {
      hide Inv, Gone, Creatable;
      if sub.Some? {
        Unsubscribe(table, meanwhile[..2]);
      }
      at := table.Model();
      token := if text != "" then Some(text) else None;
      if token.None? {
        return None, at;
      }
      handle := Follow(table, text, ok, meanwhile[2..]);
    }

    /** `update` re-attaches only for another token, so a source whose session could not be made keeps
        its token and stays detached until the setting changes. */
    method Update(table: Table, text: string, ok: bool, meanwhile: seq<seq<Event>>)
      requires table.Valid() && Attached(table.Model()) && |meanwhile| == 6
      modifies this, table
      ensures table.Valid() && Attached(table.Model())
      ensures token == if text == "" then None else Some(text)
      ensures old(token) == Some(text) ==> table.Model() == old(table.Model()) && sub == old(sub)
      ensures old(token) != Some(text) && text != "" && Creatable(text, ok) ==> sub.Some?
      ensures old(token) != Some(text) && old(sub).Some? ==> Gone(table.Model(), old(sub).value)
    {
      hide table.Valid, Gone;
      if token.None? || token.value != text {
        var _, _ := Attach(table, text, ok, meanwhile);
      }
    }

    /** `destroy`: the source leaves nothing behind. */
    method Destroy(table: Table, meanwhile: seq<seq<Event>>)
      requires table.Valid() && Attached(table.Model()) && |meanwhile| == 2
      modifies this, table
      ensures table.Valid() && (old(sub).Some? ==> Gone(table.Model(), old(sub).value))
    {
      if sub.Some? {
        Unsubscribe(table, meanwhile);
      }
    }
  }

  /** Attachment survives every step of other threads. */
  lemma StaysAttached(sys: Sys, e: Event, sub: nat, s: nat, token: string)
    requires Inv(sys) && Enabled(sys, e) && Subscribes(sys, sub, s, token) && sub !in Acts(e)
    ensures Subscribes(Next(sys, e), sub, s, token)
  {
    OthersKeepReference(sys, e, sub);
  }
}
