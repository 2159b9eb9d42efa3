/**
 The script around the parser: parse every export, concatenate the tables in
 file order and drop the records whose `Text` an earlier record already has.
 */
module Corpus {
  import opened Wrappers
  import opened Seqs
  import opened Parser

  /** Why the script stops with an exception: `pd.concat` of an empty list of tables. */
  datatype CorpusError = NoObjectsToConcatenate

  /** Some record of `rs` has text `t`. */
  predicate HasText(rs: seq<Article>, t: string) {
    exists k | 0 <= k < |rs| :: rs[k].text == t
  }

  /** No two records of `rs` share a text. */
  predicate DistinctTexts(rs: seq<Article>) {
    forall i, j | 0 <= i < j < |rs| :: rs[i].text != rs[j].text
  }

  /** The index of the first record of `rs` with text `t`, or `|rs|` when there is none. */
  function FirstTextIndex(rs: seq<Article>, t: string): (k: nat)
    ensures k <= |rs|
    ensures k < |rs| <==> HasText(rs, t)
    ensures k < |rs| ==> rs[k].text == t
    ensures forall j | 0 <= j < k :: rs[j].text != t
    decreases |rs|
  {
    if |rs| == 0 then 0
    else if rs[0].text == t then 0
    else
      var k := FirstTextIndex(rs[1..], t);
      assert forall j | 1 <= j < |rs| :: rs[j] == rs[1..][j - 1];
      k + 1
  }

  /**
   `drop_duplicates(subset=["Text"], keep="first")` as a reference: walk the
   records in order, keeping one when its text is not in `seen` yet.
   */
  function KeepFirst(rs: seq<Article>, seen: set<string>): seq<Article>
    decreases |rs|
  {
    if |rs| == 0 then []
    else if rs[0].text in seen then KeepFirst(rs[1..], seen)
    else [rs[0]] + KeepFirst(rs[1..], seen + {rs[0].text})
  }

  /** What `KeepFirst` keeps: records of `rs` in their order, one per text not already seen, each the first with its text. */
  lemma KeepFirstSpec(rs: seq<Article>, seen: set<string>)
    ensures var r := KeepFirst(rs, seen);
      && IsSubsequence(r, rs)
      && DistinctTexts(r)
      && (forall k | 0 <= k < |r| :: r[k].text !in seen)
      && (forall t :: HasText(r, t) <==> HasText(rs, t) && t !in seen)
      && (forall k | 0 <= k < |r| :: r[k] == rs[FirstTextIndex(rs, r[k].text)])
      && (forall i, j | 0 <= i < j < |r| :: FirstTextIndex(rs, r[i].text) < FirstTextIndex(rs, r[j].text))
  {
    KeepFirstSubsequence(rs, seen);
    KeepFirstUnseen(rs, seen);
    KeepFirstTexts(rs, seen);
    KeepFirstAtFirstIndex(rs, seen);
  }

  /** Each record of `r` is the record at the first index of its text in `rs`. */
  predicate AtFirstIndex(rs: seq<Article>, r: seq<Article>) {
    forall k | 0 <= k < |r| :: FirstTextIndex(rs, r[k].text) < |rs| && r[k] == rs[FirstTextIndex(rs, r[k].text)]
  }

  /** The records of `r` come in increasing order of the first indices of their texts in `rs`. */
  predicate InFirstIndexOrder(rs: seq<Article>, r: seq<Article>) {
    forall i, j | 0 <= i < j < |r| :: FirstTextIndex(rs, r[i].text) < FirstTextIndex(rs, r[j].text)
  }

  /** What `KeepFirst` keeps sits at the first indices of its texts, in their order. */
  lemma {:induction false} KeepFirstAtFirstIndex(rs: seq<Article>, seen: set<string>)
    ensures AtFirstIndex(rs, KeepFirst(rs, seen)) && InFirstIndexOrder(rs, KeepFirst(rs, seen))
    decreases |rs|
  {
    if |rs| > 0 {
      var rest := rs[1..];
      if rs[0].text in seen {
        KeepFirstAtFirstIndex(rest, seen);
        AtFirstIndexSkip(rs, seen);
        OrderSkip(rs, seen);
      } else {
        KeepFirstAtFirstIndex(rest, seen + {rs[0].text});
        AtFirstIndexKeep(rs, seen);
        OrderKeep(rs, seen);
      }
    }
  }

  lemma AtFirstIndexSkip(rs: seq<Article>, seen: set<string>)
    requires |rs| > 0 && rs[0].text in seen
    requires AtFirstIndex(rs[1..], KeepFirst(rs[1..], seen))
    ensures AtFirstIndex(rs, KeepFirst(rs, seen))
  {
    var rest, r := rs[1..], KeepFirst(rs[1..], seen);
    SkippedFirstIndex(rs, seen);
    forall k | 0 <= k < |r| ensures FirstTextIndex(rs, r[k].text) < |rs| && r[k] == rs[FirstTextIndex(rs, r[k].text)] {
      var f := FirstTextIndex(rest, r[k].text);
      assert rs[f + 1] == rest[f];
    }
  }

  lemma OrderSkip(rs: seq<Article>, seen: set<string>)
    requires |rs| > 0 && rs[0].text in seen
    requires InFirstIndexOrder(rs[1..], KeepFirst(rs[1..], seen))
    ensures InFirstIndexOrder(rs, KeepFirst(rs, seen))
  {
    SkippedFirstIndex(rs, seen);
  }

  lemma AtFirstIndexKeep(rs: seq<Article>, seen: set<string>)
    requires |rs| > 0 && rs[0].text !in seen
    requires AtFirstIndex(rs[1..], KeepFirst(rs[1..], seen + {rs[0].text}))
    ensures AtFirstIndex(rs, KeepFirst(rs, seen))
  {
    var rest := rs[1..];
    var r' := KeepFirst(rest, seen + {rs[0].text});
    var r := KeepFirst(rs, seen);
    KeptFirstIndex(rs, seen);
    forall k | 0 <= k < |r| ensures FirstTextIndex(rs, r[k].text) < |rs| && r[k] == rs[FirstTextIndex(rs, r[k].text)] {
      if k > 0 {
        var f := FirstTextIndex(rest, r'[k - 1].text);
        assert r[k] == r'[k - 1] && rs[f + 1] == rest[f];
      }
    }
  }

  lemma OrderKeep(rs: seq<Article>, seen: set<string>)
    requires |rs| > 0 && rs[0].text !in seen
    requires InFirstIndexOrder(rs[1..], KeepFirst(rs[1..], seen + {rs[0].text}))
    ensures InFirstIndexOrder(rs, KeepFirst(rs, seen))
  {
    var r := KeepFirst(rs, seen);
    forall i, j | 0 <= i < j < |r| ensures FirstTextIndex(rs, r[i].text) < FirstTextIndex(rs, r[j].text) {
      OrderKeepPair(rs, seen, i, j);
    }
  }

  lemma OrderKeepPair(rs: seq<Article>, seen: set<string>, i: nat, j: nat)
    requires |rs| > 0 && rs[0].text !in seen
    requires InFirstIndexOrder(rs[1..], KeepFirst(rs[1..], seen + {rs[0].text}))
    requires i < j < |KeepFirst(rs, seen)|
    ensures FirstTextIndex(rs, KeepFirst(rs, seen)[i].text) < FirstTextIndex(rs, KeepFirst(rs, seen)[j].text)
  {
    var rest, seen' := rs[1..], seen + {rs[0].text};
    var r' := KeepFirst(rest, seen');
    assert KeepFirst(rs, seen) == [rs[0]] + r';
    KeepFirstUnseen(rest, seen');
    var b := r'[j - 1];
    FirstTextIndexShift(rs, b.text);
    if i > 0 {
      FirstTextIndexShift(rs, r'[i - 1].text);
    }
  }

  /** Past a first record with another text, the first index of a text moves up by one. */
  lemma FirstTextIndexShift(rs: seq<Article>, t: string)
    requires |rs| > 0 && rs[0].text != t
    ensures FirstTextIndex(rs, t) == FirstTextIndex(rs[1..], t) + 1
  {
  }

  /** Past a first record whose text is already seen, every kept text's first index moves up by one. */
  lemma SkippedFirstIndex(rs: seq<Article>, seen: set<string>)
    requires |rs| > 0 && rs[0].text in seen
    ensures var r := KeepFirst(rs[1..], seen);
      && KeepFirst(rs, seen) == r
      && forall k | 0 <= k < |r| :: FirstTextIndex(rs, r[k].text) == FirstTextIndex(rs[1..], r[k].text) + 1
  {
    var rest := rs[1..];
    KeepFirstUnseen(rest, seen);
    var r := KeepFirst(rest, seen);
    forall k | 0 <= k < |r| ensures FirstTextIndex(rs, r[k].text) == FirstTextIndex(rest, r[k].text) + 1 {
      assert r[k].text != rs[0].text;
    }
  }

  /** When the first record is kept, it sits at index 0 and every later kept text's first index moves up by one. */
  lemma KeptFirstIndex(rs: seq<Article>, seen: set<string>)
    requires |rs| > 0 && rs[0].text !in seen
    ensures var r' := KeepFirst(rs[1..], seen + {rs[0].text});
      && KeepFirst(rs, seen) == [rs[0]] + r'
      && FirstTextIndex(rs, rs[0].text) == 0
      && forall k | 0 <= k < |r'| :: FirstTextIndex(rs, r'[k].text) == FirstTextIndex(rs[1..], r'[k].text) + 1
  {
    var rest := rs[1..];
    var seen' := seen + {rs[0].text};
    KeepFirstUnseen(rest, seen');
    var r' := KeepFirst(rest, seen');
    forall k | 0 <= k < |r'| ensures FirstTextIndex(rs, r'[k].text) == FirstTextIndex(rest, r'[k].text) + 1 {
      assert r'[k].text != rs[0].text;
    }
  }

  lemma {:induction false} KeepFirstSubsequence(rs: seq<Article>, seen: set<string>)
    ensures IsSubsequence(KeepFirst(rs, seen), rs)
    decreases |rs|
  {
    if |rs| > 0 {
      var a, rest := rs[0], rs[1..];
      assert rs == [a] + rest;
      if a.text in seen {
        KeepFirstSubsequence(rest, seen);
        SkipSubsequence(a, KeepFirst(rest, seen), rest);
      } else {
        KeepFirstSubsequence(rest, seen + {a.text});
        ConsSubsequence(a, KeepFirst(rest, seen + {a.text}), rest);
      }
    }
  }

  /** The kept texts are pairwise different and none was seen before. */
  lemma {:induction false} KeepFirstUnseen(rs: seq<Article>, seen: set<string>)
    ensures var r := KeepFirst(rs, seen);
      DistinctTexts(r) && forall k | 0 <= k < |r| :: r[k].text !in seen
    decreases |rs|
  {
    if |rs| > 0 {
      var a, rest := rs[0], rs[1..];
      if a.text in seen {
        KeepFirstUnseen(rest, seen);
      } else {
        var r' := KeepFirst(rest, seen + {a.text});
        KeepFirstUnseen(rest, seen + {a.text});
        var r := [a] + r';
        assert KeepFirst(rs, seen) == r;
        forall k | 1 <= k < |r| ensures r[k].text !in seen {
          assert r[k] == r'[k - 1];
        }
        forall i, j | 0 <= i < j < |r| ensures r[i].text != r[j].text {
          assert r[j] == r'[j - 1];
          if i > 0 {
            assert r[i] == r'[i - 1];
          }
        }
      }
    }
  }

  /** A text is kept exactly when some record has it and it was not seen before. */
  lemma {:induction false} KeepFirstTexts(rs: seq<Article>, seen: set<string>)
    ensures forall t :: HasText(KeepFirst(rs, seen), t) <==> HasText(rs, t) && t !in seen
    decreases |rs|
  {
    if |rs| > 0 {
      var a, rest := rs[0], rs[1..];
      assert forall k | 1 <= k < |rs| :: rs[k] == rest[k - 1];
      KeepFirstUnseen(rs, seen);
      if a.text in seen {
        KeepFirstTexts(rest, seen);
        forall t | HasText(rs, t) && t !in seen ensures HasText(rest, t) {
          var k :| 0 <= k < |rs| && rs[k].text == t;
          assert rest[k - 1].text == t;
        }
        forall t | HasText(rest, t) ensures HasText(rs, t) {
          var k :| 0 <= k < |rest| && rest[k].text == t;
          assert rs[k + 1].text == t;
        }
      } else {
        var r' := KeepFirst(rest, seen + {a.text});
        var r := [a] + r';
        KeepFirstTexts(rest, seen + {a.text});
        assert forall k | 1 <= k < |r| :: r[k] == r'[k - 1];
        forall t | HasText(r, t) ensures HasText(rs, t) {
          var k :| 0 <= k < |r| && r[k].text == t;
          if k > 0 {
            assert HasText(r', t);
            var j :| 0 <= j < |rest| && rest[j].text == t;
            assert rs[j + 1].text == t;
          } else {
            assert rs[0].text == t;
          }
        }
        forall t | HasText(rs, t) && t !in seen ensures HasText(r, t) {
          var k :| 0 <= k < |rs| && rs[k].text == t;
          if t != a.text {
            assert rest[k - 1].text == t;
            var j :| 0 <= j < |r'| && r'[j].text == t;
            assert r[j + 1].text == t;
          } else {
            assert r[0].text == t;
          }
        }
      }
    }
  }

  /** Lines 133-136: the loop behind `drop_duplicates`, remembering the texts it has kept. */
  method DropDuplicates(rs: seq<Article>) returns (out: seq<Article>)
    ensures out == KeepFirst(rs, {})
    ensures IsSubsequence(out, rs)
    ensures DistinctTexts(out)
    ensures forall t :: HasText(out, t) <==> HasText(rs, t)
    ensures forall k | 0 <= k < |out| :: FirstTextIndex(rs, out[k].text) < |rs| && out[k] == rs[FirstTextIndex(rs, out[k].text)]
  {
    out := [];
    var seen: set<string> := {};
    var i := 0;
    while i < |rs|
      invariant 0 <= i <= |rs|
      invariant out + KeepFirst(rs[i..], seen) == KeepFirst(rs, {})
      decreases |rs| - i
    {
      assert rs[i..][1..] == rs[i + 1..];
      if rs[i].text !in seen {
        out := out + [rs[i]];
        seen := seen + {rs[i].text};
      }
      i := i + 1;
    }
    assert rs[i..] == [];
    KeepFirstSpec(rs, {});
  }

  /** Line 129 for every file: the table of each export, in file order. */
  function Frames(files: seq<string>): seq<seq<Article>>
  {
    seq(|files|, i requires 0 <= i < |files| => ParseExport(files[i]))
  }

  /** The tables one after the other. */
  function Flatten(frames: seq<seq<Article>>): seq<Article>
    decreases |frames|
  {
    if |frames| == 0 then [] else frames[0] + Flatten(frames[1..])
  }

  /** Line 133: `pd.concat(all_dfs, ignore_index=True)` for at least one table. */
  method ConcatAll(frames: seq<seq<Article>>) returns (all: seq<Article>)
    ensures all == Flatten(frames)
  {
    all := [];
    var i := 0;
    while i < |frames|
      invariant 0 <= i <= |frames|
      invariant all + Flatten(frames[i..]) == Flatten(frames)
      decreases |frames| - i
    {
      assert frames[i..][1..] == frames[i + 1..];
      all := all + frames[i];
      i := i + 1;
    }
    assert frames[i..] == [];
  }

  /** `Flatten` is empty exactly when every table is. */
  lemma {:induction false} FlattenEmpty(frames: seq<seq<Article>>)
    ensures Flatten(frames) == [] <==> forall i | 0 <= i < |frames| :: frames[i] == []
    decreases |frames|
  {
    if |frames| > 0 {
      FlattenEmpty(frames[1..]);
      assert forall i | 1 <= i < |frames| :: frames[i] == frames[1..][i - 1];
    }
  }

  /**
   Lines 127-136 on the contents of the export files: the de-duplicated
   table, or the exception the script would stop with.  Exports that give no
   record at all concatenate to an empty table, which `drop_duplicates`
   returns as it is, so only an empty list of files fails.
   */
  method ParseCorpus(files: seq<string>) returns (r: Result<seq<Article>, CorpusError>)
    ensures r.Failure? <==> |files| == 0
    ensures r.Failure? ==> r.error == NoObjectsToConcatenate
    ensures r.Success? ==> r.value == KeepFirst(Flatten(Frames(files)), {})
    ensures r.Success? ==> IsSubsequence(r.value, Flatten(Frames(files))) && DistinctTexts(r.value)
    ensures r.Success? ==> forall t :: HasText(r.value, t) <==> HasText(Flatten(Frames(files)), t)
    ensures r.Success? ==> (r.value == [] <==> forall i | 0 <= i < |files| :: Frames(files)[i] == [])
  {
    if |files| == 0 {
      return Failure(NoObjectsToConcatenate);
    }
    var frames := Frames(files);
    var all := ConcatAll(frames);
    FlattenEmpty(frames);
    var out := DropDuplicates(all);
    assert all == [] ==> out == [];
    assert all != [] ==> out != [] by {
      if all != [] {
        assert HasText(all, all[0].text);
      }
    }
    return Success(out);
  }

  /** Dropping duplicates twice drops nothing more. */
  lemma DropDuplicatesIdempotent(rs: seq<Article>)
    ensures KeepFirst(KeepFirst(rs, {}), {}) == KeepFirst(rs, {})
  {
    KeepFirstSpec(rs, {});
    KeepFirstOfDistinct(KeepFirst(rs, {}), {});
  }

  /** Records with pairwise different texts, none of them seen, are all kept. */
  lemma {:induction false} KeepFirstOfDistinct(rs: seq<Article>, seen: set<string>)
    requires DistinctTexts(rs)
    requires forall k | 0 <= k < |rs| :: rs[k].text !in seen
    ensures KeepFirst(rs, seen) == rs
    decreases |rs|
  {
    if |rs| > 0 {
      var rest := rs[1..];
      assert forall k | 0 <= k < |rest| :: rest[k] == rs[k + 1];
      KeepFirstOfDistinct(rest, seen + {rs[0].text});
      assert rs == [rs[0]] + rest;
    }
  }
}
