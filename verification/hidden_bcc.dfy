/**
 * The hidden blind-copy merge inside the send handler (app.py:55-58): the
 * configured hidden addresses are appended to the user's BCC list, except
 * those whose lower-case form is already the lower-case form of an entry the
 * user typed.  The set of lower-cased user entries is built once, before
 * anything is appended, so it never grows while the hidden list is scanned.
 */
module HiddenBcc {
  import opened PyStr
  import opened SeqFacts

  /** {e.lower() for e in addrs} */
  function LowerSet(addrs: seq<string>): (r: set<string>)
    ensures forall e :: e in addrs ==> Lower(e) in r
    ensures forall l :: l in r ==> exists e :: e in addrs && Lower(e) == l
  {
    set e | e in addrs :: Lower(e)
  }

  /**
   * The hidden addresses that get appended, in configured order: those whose
   * lower-case form is not in existing.
   */
  function Additions(existing: set<string>, hidden: seq<string>): (added: seq<string>)
    ensures |added| <= |hidden|
    ensures forall e :: e in added ==> e in hidden && Lower(e) !in existing
  {
    if hidden == [] then []
    else
      var last := hidden[|hidden| - 1];
      Additions(existing, hidden[..|hidden| - 1]) + (if Lower(last) in existing then [] else [last])
  }

  /**
   * bcc_list after the merge: the loop appends to the list one hidden address
   * at a time, testing each against the set built from the user's entries.
   */
  method MergeHiddenBcc(bcc: seq<string>, hidden: seq<string>) returns (merged: seq<string>)
    ensures |bcc| <= |merged| && merged[..|bcc|] == bcc
    ensures merged[|bcc|..] == Additions(LowerSet(bcc), hidden)
    ensures merged == bcc + Additions(LowerSet(bcc), hidden)
    ensures hidden == [] ==> merged == bcc
    ensures forall h :: h in hidden ==> Lower(h) in LowerSet(merged)
  {
    merged := bcc;
    AppendEmpty(bcc);
    if |hidden| > 0 {
      var existing := set e | e in bcc :: Lower(e);
      assert existing == LowerSet(bcc);
      var i := 0;
      while i < |hidden|
        invariant 0 <= i <= |hidden|
        invariant merged == bcc + Additions(existing, hidden[..i])
      {
        var e := hidden[i];
        ExtendPrefix(hidden, i);
        var step := if Lower(e) in existing then [] else [e];
        assert Additions(existing, hidden[..i + 1]) == Additions(existing, hidden[..i]) + step;
        Assoc(bcc, Additions(existing, hidden[..i]), step);
        if Lower(e) !in existing {
          merged := merged + [e];
        } else {
          AppendEmpty(merged);
        }
        i := i + 1;
      }
      assert hidden[..i] == hidden;
    }
    Halves(bcc, merged[|bcc|..]);
    MergeCoversHidden(bcc, hidden, merged);
  }

  /**
   * How often an address ends up among the additions: never if its
   * lower-case form is in existing, otherwise exactly as often as it is
   * configured.  In particular duplicates inside the hidden list survive.
   */
  lemma {:induction false} AdditionsCount(existing: set<string>, hidden: seq<string>, e: string)
    ensures multiset(Additions(existing, hidden))[e] == if Lower(e) in existing then 0 else multiset(hidden)[e]
  {
    if hidden != [] {
      var n := |hidden| - 1;
      TakeDrop(hidden, n);
      assert hidden[n..] == [hidden[n]];
      AdditionsCount(existing, hidden[..n], e);
    }
  }

  /** The additions keep configured order: they work piece by piece. */
  lemma {:induction false} AdditionsAppend(existing: set<string>, a: seq<string>, b: seq<string>)
    ensures Additions(existing, a + b) == Additions(existing, a) + Additions(existing, b)
    decreases |b|
  {
    if b == [] {
      AppendEmpty(a);
      AppendEmpty(Additions(existing, a));
    } else {
      var n := |b| - 1;
      var last := b[n];
      SnocFront(a, b);
      AdditionsAppend(existing, a, b[..n]);
      Assoc(Additions(existing, a), Additions(existing, b[..n]), if Lower(last) in existing then [] else [last]);
    }
  }

  /** When no hidden address clashes with the user's entries, all of them are appended unchanged. */
  lemma {:induction false} AdditionsNoClash(existing: set<string>, hidden: seq<string>)
    requires forall e :: e in hidden ==> Lower(e) !in existing
    ensures Additions(existing, hidden) == hidden
  {
    if hidden != [] {
      var n := |hidden| - 1;
      assert forall e :: e in hidden[..n] ==> e in hidden;
      assert hidden[n] in hidden;
      AdditionsNoClash(existing, hidden[..n]);
      TakeDrop(hidden, n);
      assert hidden[n..] == [hidden[n]];
    }
  }

  /**
   * Whatever the user typed, every hidden address reaches the BCC list, up
   * to ASCII case; and every entry of the merged list is one the user typed
   * or one that was configured.
   */
  lemma MergeCoversHidden(bcc: seq<string>, hidden: seq<string>, merged: seq<string>)
    requires |bcc| <= |merged| && merged[..|bcc|] == bcc
    requires merged[|bcc|..] == Additions(LowerSet(bcc), hidden)
    ensures forall h :: h in hidden ==> Lower(h) in LowerSet(merged)
    ensures forall e :: e in merged ==> e in bcc || e in hidden
  {
    var existing := LowerSet(bcc);
    TakeDrop(merged, |bcc|);
    forall h | h in hidden ensures Lower(h) in LowerSet(merged) {
      if Lower(h) !in existing {
        AdditionsCount(existing, hidden, h);
        assert h in multiset(hidden);
        assert h in merged[|bcc|..];
      } else {
        var e :| e in bcc && Lower(e) == Lower(h);
        assert e in merged;
      }
    }
  }

  /** A duplicated hidden address is appended twice. */
  lemma DuplicateHiddenSurvives(bcc: seq<string>, h: string)
    requires Lower(h) !in LowerSet(bcc)
    ensures Additions(LowerSet(bcc), [h, h]) == [h, h]
  {
    AdditionsNoClash(LowerSet(bcc), [h, h]);
  }

  /** The user's entry suppresses the hidden one that differs only in case; casing of the user's entry is kept. */
  lemma MergeExample()
    ensures Additions(LowerSet(["a@x.com"]), ["A@X.com", "d@w.com"]) == ["d@w.com"]
    ensures ["a@x.com"] + Additions(LowerSet(["a@x.com"]), ["A@X.com", "d@w.com"]) == ["a@x.com", "d@w.com"]
  {
    var existing := LowerSet(["a@x.com"]);
    assert Lower("a@x.com") == "a@x.com";
    assert Lower("A@X.com") == "a@x.com";
    assert Lower("d@w.com") == "d@w.com";
    assert existing == {"a@x.com"};
    assert ["A@X.com", "d@w.com"][..1] == ["A@X.com"];
    assert ["A@X.com"][..0] == [];
  }
}
