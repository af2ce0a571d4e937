/** c14n.c: the stack of namespaces already rendered. */
module NsStack {
  import opened Strings
  import opened XmlTree

  const XML_NAMESPACES_DEFAULT := 16

  /** The URI the topmost entry for `prefix` gives; empty when there is none. */
  function TopUri(s: seq<Ns>, prefix: string): string
  {
    if s == [] then ""
    else if s[|s| - 1].prefix == prefix then s[|s| - 1].href
    else TopUri(s[..|s| - 1], prefix)
  }

  predicate HasPrefix(s: seq<Ns>, prefix: string)
  {
    exists i :: 0 <= i < |s| && s[i].prefix == prefix
  }

  /** What a search of `s` answers for `ns`: the topmost entry for the prefix decides, and with no
      entry only the empty default counts as rendered. */
  predicate Rendered(s: seq<Ns>, ns: Ns)
  {
    if HasPrefix(s, ns.prefix) then TopUri(s, ns.prefix) == ns.href
    else ns.prefix == "" && ns.href == ""
  }

  datatype StackState = StackState(nsCurEnd: nat, nsPrevStart: nat, nsPrevEnd: nat)

  class VisibleNsStack {
    var nsCurEnd: nat
    var nsPrevStart: nat
    var nsPrevEnd: nat
    var nsTab: array<Ns>

    predicate Valid()
      reads this
    {
      nsPrevStart <= nsPrevEnd <= nsCurEnd <= nsTab.Length
    }

    /** The entries in use, bottom first. */
    function Live(): seq<Ns>
      requires Valid()
      reads this, nsTab
    {
      nsTab[..nsCurEnd]
    }

    function State(): StackState
      reads this
    {
      StackState(nsCurEnd, nsPrevStart, nsPrevEnd)
    }

    constructor ()
      ensures Valid() && fresh(nsTab)
      ensures State() == StackState(0, 0, 0)
    {
      nsCurEnd, nsPrevStart, nsPrevEnd := 0, 0, 0;
      nsTab := new Ns[0];
    }

    /** xmlC14NVisibleNsStackAdd */
    method Add(ns: Ns)
      requires Valid()
      modifies this`nsCurEnd, this`nsTab, nsTab
      ensures Valid() && (nsTab == old(nsTab) || fresh(nsTab))
      ensures Live() == old(Live()) + [ns]
    {
      ghost var before := Live();
      if nsTab.Length == 0 {
        nsTab := new Ns[XML_NAMESPACES_DEFAULT](_ => ns);
      } else if nsTab.Length == nsCurEnd {
        var bigger := new Ns[2 * nsTab.Length](_ => ns);
        forall k | 0 <= k < nsCurEnd { bigger[k] := nsTab[k]; }
        nsTab := bigger;
      }
      assert nsTab[..nsCurEnd] == before;
      nsTab[nsCurEnd] := ns;
      nsCurEnd := nsCurEnd + 1;
      assert nsTab[..nsCurEnd] == nsTab[..nsCurEnd - 1] + [ns];
    }

    /** xmlC14NVisibleNsStackSave */
    method Save() returns (state: StackState)
      ensures state == State()
    {
      state := StackState(nsCurEnd, nsPrevStart, nsPrevEnd);
    }

    /** xmlC14NVisibleNsStackRestore */
    method Restore(state: StackState)
      requires Valid() && state.nsPrevStart <= state.nsPrevEnd <= state.nsCurEnd <= nsCurEnd
      modifies this`nsCurEnd, this`nsPrevStart, this`nsPrevEnd
      ensures Valid() && State() == state
      ensures Live() == old(Live())[..state.nsCurEnd]
    {
      nsCurEnd := state.nsCurEnd;
      nsPrevStart := state.nsPrevStart;
      nsPrevEnd := state.nsPrevEnd;
    }

    /** xmlC14NVisibleNsStackShift */
    method Shift()
      requires Valid()
      modifies this`nsPrevStart, this`nsPrevEnd
      ensures Valid() && State() == StackState(old(nsCurEnd), old(nsPrevEnd), old(nsCurEnd))
      ensures Live() == old(Live())
    {
      nsPrevStart := nsPrevEnd;
      nsPrevEnd := nsCurEnd;
    }

    /** The backward scan both searches share: entries from `start` up. */
    method Scan(ns: Ns, start: nat) returns (found: bool)
      requires Valid() && start <= nsCurEnd
      ensures found == Rendered(Live()[start..], ns)
    {
      var i := nsCurEnd;
      ghost var window := Live()[start..];
      assert window[..i - start] == window;
      while i > start
        invariant start <= i <= nsCurEnd
        invariant forall k :: i - start <= k < |window| ==> window[k].prefix != ns.prefix
        invariant HasPrefix(window, ns.prefix) <==> HasPrefix(window[..i - start], ns.prefix)
        invariant TopUri(window, ns.prefix) == TopUri(window[..i - start], ns.prefix)
      {
        i := i - 1;
        ghost var below := window[..i - start + 1];
        assert below[|below| - 1] == nsTab[i] && below[..|below| - 1] == window[..i - start];
        if nsTab[i].prefix == ns.prefix {
          assert window[i - start].prefix == ns.prefix;
          return nsTab[i].href == ns.href;
        }
      }
      found := ns.prefix == "" && ns.href == "";
    }

    /** xmlC14NVisibleNsStackFind: looks back to the previous visible element only, except for the
        empty default namespace. */
    method Find(ns: Ns) returns (found: bool)
      requires Valid()
      ensures found == Rendered(Live()[if ns.prefix == "" && ns.href == "" then 0 else nsPrevStart..], ns)
    {
      var hasEmptyNs := ns.prefix == "" && ns.href == "";
      found := Scan(ns, if hasEmptyNs then 0 else nsPrevStart);
    }

    /** xmlExcC14NVisibleNsStackFind: looks at the whole stack. */
    method FindExclusive(ns: Ns) returns (found: bool)
      requires Valid()
      ensures found == Rendered(Live(), ns)
    {
      assert Live()[0..] == Live();
      found := Scan(ns, 0);
    }
  }

  // ----- lemmas about the topmost entry

  lemma {:induction false} TopUriAppend(s: seq<Ns>, t: seq<Ns>, prefix: string)
    ensures TopUri(s + t, prefix) == if HasPrefix(t, prefix) then TopUri(t, prefix) else TopUri(s, prefix)
    decreases |t|
  {
    if t == [] {
      assert s + t == s;
    } else {
      var last := t[|t| - 1];
      assert (s + t)[|s + t| - 1] == last;
      if last.prefix != prefix {
        assert (s + t)[..|s + t| - 1] == s + t[..|t| - 1];
        TopUriAppend(s, t[..|t| - 1], prefix);
        if HasPrefix(t, prefix) {
          var i :| 0 <= i < |t| && t[i].prefix == prefix;
          assert t[..|t| - 1][i].prefix == prefix;
        }
      }
    }
  }

  lemma {:induction false} TopUriIsMember(s: seq<Ns>, prefix: string)
    ensures HasPrefix(s, prefix) ==>
              exists i :: 0 <= i < |s| && s[i].prefix == prefix && s[i].href == TopUri(s, prefix)
    ensures !HasPrefix(s, prefix) ==> TopUri(s, prefix) == ""
  {
    if s != [] && s[|s| - 1].prefix != prefix {
      var t := s[..|s| - 1];
      TopUriIsMember(t, prefix);
      assert forall i :: 0 <= i < |t| ==> t[i] == s[i];
      if HasPrefix(s, prefix) {
        var i :| 0 <= i < |s| && s[i].prefix == prefix;
        assert t[i].prefix == prefix;
        var k :| 0 <= k < |t| && t[k].prefix == prefix && t[k].href == TopUri(t, prefix);
        assert s[k].href == TopUri(s, prefix);
      }
    } else if s != [] {
      assert s[|s| - 1].prefix == prefix;
    }
  }

  /** For a declaration that binds something, "rendered" is "the topmost entry binds it so". */
  lemma RenderedIsTopUri(s: seq<Ns>, ns: Ns)
    requires LegalDef(ns)
    ensures Rendered(s, ns) <==> TopUri(s, ns.prefix) == ns.href
  {
    TopUriIsMember(s, ns.prefix);
  }
}
