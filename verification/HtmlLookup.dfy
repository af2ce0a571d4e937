/** HTMLparser.c 5045-5157: the search of the push parser for the end of a comment (iscomment set),
    which remembers in checkIndex how far it has already looked. */
module HtmlLookup {
  import opened Strings

  /** The sequence looked for, '\0' standing for no character, and whether quoted text is skipped. */
  datatype Pattern = Pattern(first: char, next: char, third: char, ignoreQuoted: bool)
  {
    /** The characters needed behind the first one. */
    function Extra(): (n: nat)
    {
      if third != '\0' then 2 else if next != '\0' then 1 else 0
    }

    predicate Matches(s: string, at: nat)
      requires at + Extra() < |s|
    {
      && s[at] == first
      && if third != '\0' then s[at + 1] == next && s[at + 2] == third
         else next != '\0' ==> s[at + 1] == next
    }
  }

  predicate IsQuote(c: char) { c == '"' || c == '\'' }

  /** The open quote after reading `c`. */
  function Step(q: Option<char>, c: char): Option<char>
  {
    if !IsQuote(c) then q else if q == None then Some(c) else if q == Some(c) then None else q
  }

  /** The open quote in front of `at` when reading starts at `from`. */
  function Quote(p: Pattern, s: string, from: nat, at: nat): Option<char>
    requires from <= at <= |s|
    decreases at
  {
    if !p.ignoreQuoted || at == from then None else Step(Quote(p, s, from, at - 1), s[at - 1])
  }

  /** A character not looked at: an opening or closing quote, or anything between, except that the
      other kind of quote between is looked at. */
  predicate Skipped(p: Pattern, q: Option<char>, c: char)
  {
    p.ignoreQuoted && if IsQuote(c) then q == None || q == Some(c) else q.Some?
  }

  /** The whole sequence is at `at`, and not in quoted text, as seen from `from`. */
  predicate Hit(p: Pattern, s: string, from: nat, at: nat)
    requires from <= at
  {
    at + p.Extra() < |s| && !Skipped(p, Quote(p, s, from, at), s[at]) && p.Matches(s, at)
  }

  /** `r` is where, from `from` on, the first hit is, and -1 if there is none. */
  ghost predicate IsAnswer(p: Pattern, s: string, from: nat, r: int)
  {
    if r < 0 then r == -1 && forall i: nat :: from <= i ==> !Hit(p, s, from, i)
    else Hit(p, s, from, from + r) && forall i: nat :: from <= i < from + r ==> !Hit(p, s, from, i)
  }

  lemma AnswerUnique(p: Pattern, s: string, from: nat, r: int, r': int)
    requires IsAnswer(p, s, from, r) && IsAnswer(p, s, from, r')
    ensures r == r'
  {
    if r >= 0 { assert Hit(p, s, from, from + r); }
    if r' >= 0 { assert Hit(p, s, from, from + r'); }
  }

  // ----- what a hit is, on the bytes

  /** The bytes of the sequence are at `at`. */
  predicate Spelt(p: Pattern, s: string, at: nat)
  {
    if p.third != '\0' then
      at + 2 < |s| && s[at] == p.first && s[at + 1] == p.next && s[at + 2] == p.third
    else if p.next != '\0' then at + 1 < |s| && s[at] == p.first && s[at + 1] == p.next
    else at < |s| && s[at] == p.first
  }

  /** A hit is where the bytes of the sequence are, outside quotes and not at a quote; within one kind of
      quotes, it can only begin with the other kind. */
  lemma HitSpelt(p: Pattern, s: string, from: nat, at: nat)
    requires from <= at
    ensures Hit(p, s, from, at) <==>
              && Spelt(p, s, at)
              && (p.ignoreQuoted ==>
                    match Quote(p, s, from, at)
                    case None => p.first != '"' && p.first != '\''
                    case Some(q) => p.first in "\"'" && p.first != q)
  {
    assert Spelt(p, s, at) <==> at + p.Extra() < |s| && p.Matches(s, at);
  }

  /** Text without quotes opens none. */
  lemma {:induction false} NoQuotes(p: Pattern, s: string, from: nat, at: nat)
    requires from <= at <= |s| && forall i :: from <= i < at ==> s[i] !in "\"'"
    ensures Quote(p, s, from, at) == None
    decreases at
  {
    if p.ignoreQuoted && at > from { NoQuotes(p, s, from, at - 1); }
  }

  /** A quote that opens stays open as long as it does not come again, whatever else comes, and is closed
      then. */
  lemma {:induction false} Quoted(p: Pattern, s: string, from: nat, i: nat, at: nat)
    requires p.ignoreQuoted && from <= i < at <= |s| && Quote(p, s, from, i) == None
    requires s[i] in "\"'" && forall k :: i < k < at ==> s[k] != s[i]
    ensures Quote(p, s, from, at) == Some(s[i])
    ensures at < |s| && s[at] == s[i] ==> Quote(p, s, from, at + 1) == None
    decreases at
  {
    if at > i + 1 { Quoted(p, s, from, i, at - 1); }
  }

  /** The end of a comment is where these three bytes are, unless a quote is open there. */
  lemma CommentEnd(p: Pattern, s: string, from: nat, at: nat)
    requires p == Pattern('-', '-', '>', true) && from <= at
    ensures Hit(p, s, from, at) <==>
            at + 3 <= |s| && s[at..at + 3] == "-->" && Quote(p, s, from, at) == None
  {
    HitSpelt(p, s, from, at);
  }

  // ----- more bytes arrive

  lemma {:induction false} QuoteAppend(p: Pattern, s: string, t: string, from: nat, at: nat)
    requires from <= at <= |s|
    ensures Quote(p, s + t, from, at) == Quote(p, s, from, at)
    decreases at
  {
    if p.ignoreQuoted && at > from { QuoteAppend(p, s, t, from, at - 1); }
  }

  lemma HitAppend(p: Pattern, s: string, t: string, from: nat, at: nat)
    requires from <= at && at + p.Extra() < |s|
    ensures Hit(p, s + t, from, at) == Hit(p, s, from, at)
  {
    QuoteAppend(p, s, t, from, at);
  }

  /** What has been found stays found at the same place. */
  lemma AnswerStable(p: Pattern, s: string, t: string, from: nat, r: nat)
    requires IsAnswer(p, s, from, r)
    ensures IsAnswer(p, s + t, from, r)
  {
    forall i: nat | from <= i <= from + r ensures Hit(p, s + t, from, i) == Hit(p, s, from, i) {
      HitAppend(p, s, t, from, i);
    }
  }

  /** What checkIndex promises: nothing was hit in front of it, and it is not in quoted text. */
  ghost predicate Remembered(p: Pattern, s: string, cur: nat, checkIndex: nat)
  {
    checkIndex > cur ==>
      && checkIndex + p.Extra() <= |s|
      && Quote(p, s, cur, checkIndex) == None
      && forall i: nat :: cur <= i < checkIndex ==> !Hit(p, s, cur, i)
  }

  lemma RememberedAppend(p: Pattern, s: string, t: string, cur: nat, checkIndex: nat)
    requires Remembered(p, s, cur, checkIndex)
    ensures Remembered(p, s + t, cur, checkIndex)
  {
    if checkIndex > cur {
      QuoteAppend(p, s, t, cur, checkIndex);
      forall i: nat | cur <= i < checkIndex ensures !Hit(p, s + t, cur, i) {
        HitAppend(p, s, t, cur, i);
      }
    }
  }

  // ----- where a search is taken up

  /** A search begins at the index, if that lies ahead. */
  function From(cur: nat, checkIndex: nat): nat { if checkIndex > cur then checkIndex else cur }

  /** Where an unsuccessful search ends: where the sequence no longer fits. */
  function Until(p: Pattern, s: string, from: nat): (e: nat)
    ensures from <= e
    ensures e == from || e + p.Extra() == |s|
  {
    if from + p.Extra() < |s| then |s| - p.Extra() else from
  }

  /** The index an unsuccessful search leaves: it only moves where no quote is open. */
  function Left(p: Pattern, s: string, from: nat, checkIndex: nat): nat
  {
    var e := Until(p, s, from);
    if e == from || Quote(p, s, from, e) == None then e else checkIndex
  }

  lemma {:induction false} QuoteFrom(p: Pattern, s: string, cur: nat, from: nat, at: nat)
    requires cur <= from <= at <= |s| && Quote(p, s, cur, from) == None
    ensures Quote(p, s, cur, at) == Quote(p, s, from, at)
    decreases at
  {
    if at > from { QuoteFrom(p, s, cur, from, at - 1); }
  }

  lemma HitsFrom(p: Pattern, s: string, cur: nat, from: nat)
    requires cur <= from && (from <= |s| ==> Quote(p, s, cur, from) == None)
    ensures forall i: nat :: from <= i ==> Hit(p, s, from, i) == Hit(p, s, cur, i)
  {
    forall i: nat | from <= i ensures Hit(p, s, from, i) == Hit(p, s, cur, i) {
      if i + p.Extra() < |s| { QuoteFrom(p, s, cur, from, i); }
    }
  }

  /** What a search taken up at `from` answers, counted from `cur`. */
  function Counted(cur: nat, from: nat, r: int): int { if r < 0 then r else from - cur + r }

  /** A search taken up where no quote is open is right exactly if nothing was hit before that. */
  lemma TakenUpExactly(p: Pattern, s: string, cur: nat, from: nat, r: int)
    requires cur <= from && (from <= |s| ==> Quote(p, s, cur, from) == None) && IsAnswer(p, s, from, r)
    ensures IsAnswer(p, s, cur, Counted(cur, from, r)) <==> forall i: nat :: cur <= i < from ==> !Hit(p, s, cur, i)
  {
    HitsFrom(p, s, cur, from);
    var i := cur;
    while i < from && !Hit(p, s, cur, i)
      invariant cur <= i <= from && forall k: nat :: cur <= k < i ==> !Hit(p, s, cur, k)
    {
      i := i + 1;
    }
    if i < from {
      assert IsAnswer(p, s, cur, i - cur);
      if IsAnswer(p, s, cur, Counted(cur, from, r)) { AnswerUnique(p, s, cur, i - cur, Counted(cur, from, r)); }
    }
  }

  lemma TakenUp(p: Pattern, s: string, cur: nat, checkIndex: nat, r: int)
    requires IsAnswer(p, s, From(cur, checkIndex), r)
    ensures Remembered(p, s, cur, checkIndex) ==>
              && IsAnswer(p, s, cur, Counted(cur, From(cur, checkIndex), r))
              && (r < 0 ==> Remembered(p, s, cur, Left(p, s, From(cur, checkIndex), checkIndex)))
  {
    if Remembered(p, s, cur, checkIndex) {
      var from := From(cur, checkIndex);
      TakenUpExactly(p, s, cur, from, r);
      var e := Until(p, s, from);
      if r < 0 && e > from {
        QuoteFrom(p, s, cur, from, e);
      }
    }
  }

  function Joined(pieces: seq<string>): string
  {
    if pieces == [] then "" else Joined(pieces[..|pieces| - 1]) + pieces[|pieces| - 1]
  }

  lemma {:induction false} JoinedInTwo(pieces: seq<string>, n: nat)
    requires n <= |pieces|
    ensures Joined(pieces) == Joined(pieces[..n]) + Joined(pieces[n..])
    decreases |pieces|
  {
    if n == |pieces| {
      assert pieces[..n] == pieces;
    } else {
      var front, last := pieces[..|pieces| - 1], pieces[|pieces| - 1];
      JoinedInTwo(front, n);
      assert front[..n] == pieces[..n];
      assert pieces[n..][..|pieces| - n - 1] == front[n..];
      Assoc(Joined(pieces[..n]), Joined(front[n..]), last);
    }
  }

  class Input {
    var buf: string
    var cur: nat
    var checkIndex: nat

    constructor ()
      ensures buf == "" && cur == 0 && checkIndex == 0
    {
      buf, cur, checkIndex := "", 0, 0;
    }

    /** Bytes arrive at the end of the buffer. */
    method Push(t: string)
      modifies `buf
      ensures buf == old(buf) + t
      ensures forall p :: Remembered(p, old(buf), cur, checkIndex) ==> Remembered(p, buf, cur, checkIndex)
    {
      buf := buf + t;
      forall p | Remembered(p, old(buf), cur, checkIndex) ensures Remembered(p, buf, cur, checkIndex) {
        RememberedAppend(p, old(buf), t, cur, checkIndex);
      }
    }

    /** The loop of the search: where it ends, and whether a quote is open there if nothing was hit. */
    method Scan(p: Pattern, from: nat) returns (found: bool, base: nat, open: bool)
      ensures found ==> from <= base && IsAnswer(p, buf, from, base - from)
      ensures !found ==> IsAnswer(p, buf, from, -1) && base == Until(p, buf, from)
      ensures !found ==> (open <==> base > from && Quote(p, buf, from, base) != None)
    {
      var invalue: Option<char> := None;
      var len := |buf| - p.Extra();
      base := from;
      while base < len
        invariant from <= base && (base <= len || base == from)
        invariant base <= |buf| ==> invalue == Quote(p, buf, from, base)
        invariant base > |buf| ==> invalue == None
        invariant forall i: nat :: from <= i < base ==> !Hit(p, buf, from, i)
      {
        var c := buf[base];
        if p.ignoreQuoted && IsQuote(c) && (invalue == None || invalue == Some(c)) {
          invalue := if invalue == None then Some(c) else None;
        } else if p.ignoreQuoted && !IsQuote(c) && invalue.Some? {
        } else if p.Matches(buf, base) {
          return true, base, false;
        }
        base := base + 1;
      }
      found, open := false, invalue.Some?;
    }

    /** htmlParseLookupSequence with iscomment set.  Taken up at an index that promises nothing it
        answers for the rest only; if the index keeps its promise the answer is that of a scan from
        `cur` on, and the new index keeps it again. */
    method LookupSequence(p: Pattern) returns (r: int)
      modifies `checkIndex
      ensures r >= 0 ==> cur + r >= From(cur, old(checkIndex))
      ensures IsAnswer(p, buf, From(cur, old(checkIndex)), if r < 0 then r else cur + r - From(cur, old(checkIndex)))
      ensures checkIndex == if r >= 0 then 0 else Left(p, buf, From(cur, old(checkIndex)), old(checkIndex))
      ensures Remembered(p, buf, cur, old(checkIndex)) ==>
                IsAnswer(p, buf, cur, r) && Remembered(p, buf, cur, checkIndex)
    {
      var from := if checkIndex > cur then checkIndex else cur;
      var found, base, open := Scan(p, from);
      TakenUp(p, buf, cur, checkIndex, if found then base - from else -1);
      r := if found then base - cur else -1;
      if found {
        checkIndex := 0;
      } else if !open {
        checkIndex := base;
      }
    }

    /** Pieces of input pushed one after the other until the sequence is there. */
    method PushUntilFound(p: Pattern, pieces: seq<string>) returns (r: int, n: nat)
      requires Remembered(p, buf, cur, checkIndex)
      modifies `buf, `checkIndex
      ensures n <= |pieces| && buf == old(buf) + Joined(pieces[..n]) && (r == -1 ==> n == |pieces|)
      ensures IsAnswer(p, buf, cur, r) && (r >= 0 ==> Spelt(p, buf, cur + r))
      ensures r >= 0 ==> IsAnswer(p, old(buf) + Joined(pieces), cur, r)
      ensures Remembered(p, buf, cur, checkIndex)
    {
      n := 0;
      r := LookupSequence(p);
      while r == -1 && n < |pieces|
        invariant n <= |pieces| && buf == old(buf) + Joined(pieces[..n])
        invariant IsAnswer(p, buf, cur, r)
        invariant Remembered(p, buf, cur, checkIndex)
        decreases |pieces| - n
      {
        assert pieces[..n + 1][..n] == pieces[..n];
        Assoc(old(buf), Joined(pieces[..n]), pieces[n]);
        Push(pieces[n]);
        n := n + 1;
        r := LookupSequence(p);
      }
      if r >= 0 {
        HitSpelt(p, buf, cur, cur + r);
        JoinedInTwo(pieces, n);
        Assoc(old(buf), Joined(pieces[..n]), Joined(pieces[n..]));
        AnswerStable(p, buf, Joined(pieces[n..]), cur, r);
      }
    }
  }

  /** Where quotes are depends on the pattern only in whether quoted text is skipped. */
  lemma {:induction false} QuoteSame(p: Pattern, q: Pattern, s: string, from: nat, at: nat)
    requires p.ignoreQuoted == q.ignoreQuoted && from <= at <= |s|
    ensures Quote(p, s, from, at) == Quote(q, s, from, at)
    decreases at
  {
    if p.ignoreQuoted && at > from { QuoteSame(p, q, s, from, at - 1); }
  }

  /** A search for another sequence after one in vain, with nothing resetting the index between: it is right
      exactly if the other sequence does not occur in front of the index that the first search has left. */
  method OtherSequence(p: Pattern, q: Pattern, s: string) returns (first: int, second: int)
    requires p.ignoreQuoted == q.ignoreQuoted
    ensures IsAnswer(p, s, 0, first)
    ensures IsAnswer(q, s, 0, second) <==>
              first >= 0 || forall i: nat :: i < Left(p, s, 0, 0) ==> !Hit(q, s, 0, i)
  {
    var input := new Input();
    input.Push(s);
    assert input.buf == s;
    first := input.LookupSequence(p);
    var index := input.checkIndex;
    second := input.LookupSequence(q);
    LeftOutsideQuotes(p, s);
    if index <= |s| { QuoteSame(p, q, s, 0, index); }
    TakenUpExactly(q, s, 0, index, if second < 0 then second else second - index);
  }

  lemma LeftOutsideQuotes(p: Pattern, s: string)
    ensures Left(p, s, 0, 0) <= |s| && Quote(p, s, 0, Left(p, s, 0, 0)) == None
  {
  }
}
