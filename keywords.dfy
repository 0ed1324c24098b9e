/** The keyword file: parsed into the sorted, deduplicated list of non-empty lines,
    and written back one keyword per line. */
module Keywords {
  import opened Text

  /** Strictly ascending in Python's string order: sorted, and no value twice. */
  predicate StrictlySorted(ks: seq<string>)
  {
    forall i, j :: 0 <= i < j < |ks| ==> Less(ks[i], ks[j])
  }

  /** `filter(lambda x: x != '' and x is not None, lines)`. */
  function NonEmpty(lines: seq<string>): (r: seq<string>)
    ensures forall x :: x in r <==> x in lines && x != ""
  {
    if |lines| == 0 then []
    else if lines[0] == "" then NonEmpty(lines[1..])
    else [lines[0]] + NonEmpty(lines[1..])
  }

  /** Adds `x` to a strictly sorted list at its place, unless it is already there. */
  function Insert(ks: seq<string>, x: string): seq<string>
  {
    if |ks| == 0 then [x]
    else if x == ks[0] then ks
    else if Less(x, ks[0]) then [x] + ks
    else [ks[0]] + Insert(ks[1..], x)
  }

  /** `sorted(set(lines))`, built by inserting the lines one at a time. */
  function SortedSet(lines: seq<string>): seq<string>
  {
    if |lines| == 0 then []
    else Insert(SortedSet(lines[..|lines| - 1]), lines[|lines| - 1])
  }

  /** The byte-order mark the `utf-8-sig` codec drops from the start of the file. */
  const BOM: char := 0xFEFF as char

  /** Reading in text mode: `'\r\n'` and a lone `'\r'` both become `'\n'`. */
  function Newlines(s: string): (t: string)
    ensures '\r' !in t
  {
    if |s| == 0 then ""
    else if s[0] == '\r' then "\n" + Newlines(if |s| > 1 && s[1] == '\n' then s[2..] else s[1..])
    else [s[0]] + Newlines(s[1..])
  }

  /** The text `f.read()` returns for a file opened with `encoding='utf-8-sig'`:
      one leading byte-order mark dropped, line ends translated. */
  function Decode(raw: string): (t: string)
    ensures '\r' !in t
  {
    Newlines(if |raw| > 0 && raw[0] == BOM then raw[1..] else raw)
  }

  lemma {:induction false} NewlinesKeepsPlainText(s: string)
    requires '\r' !in s
    ensures Newlines(s) == s
  {
    if |s| > 0 {
      NewlinesKeepsPlainText(s[1..]);
      assert s == [s[0]] + s[1..];
    }
  }

  /** How text mode reads the start of `a + b`, when `a` is not empty: the
      first line end or character of `a`, then the rest of `a` followed by `b`. */
  lemma NewlinesOfAppendHead(a: string, b: string)
    requires |a| > 0
    requires a[|a| - 1] != '\r' || |b| == 0 || b[0] != '\n'
    ensures var k := if a[0] == '\r' && |a| > 1 && a[1] == '\n' then 2 else 1;
      Newlines(a + b) == (if a[0] == '\r' then "\n" else [a[0]]) + Newlines(a[k..] + b)
  {
    var ab := a + b;
    assert ab[0] == a[0] && ab[1..] == a[1..] + b;
    if |a| > 1 {
      assert ab[1] == a[1] && ab[2..] == a[2..] + b;
    }
  }

  /** Text mode reads two texts one after the other as it reads each alone, unless
      the first ends in `'\r'` and the second starts with `'\n'`: that pair is one
      line end. */
  lemma {:induction false} NewlinesAppend(a: string, b: string)
    requires |a| == 0 || a[|a| - 1] != '\r' || |b| == 0 || b[0] != '\n'
    ensures Newlines(a + b) == Newlines(a) + Newlines(b)
  {
    if |a| == 0 {
      assert a + b == b;
    } else {
      var k := if a[0] == '\r' && |a| > 1 && a[1] == '\n' then 2 else 1;
      var head := if a[0] == '\r' then "\n" else [a[0]];
      var rest := a[k..];
      NewlinesOfAppendHead(a, b);
      assert Newlines(a) == head + Newlines(rest);
      NewlinesAppend(rest, b);
      AppendAssociates(head, Newlines(rest), Newlines(b));
    }
  }

  lemma AppendAssociates(x: string, y: string, z: string)
    ensures x + (y + z) == (x + y) + z
  {
  }

  /** A line end alone reads as one `'\n'`. */
  lemma NewlinesOfEol(eol: string)
    requires eol == "\n" || eol == "\r\n" || eol == "\r"
    ensures Newlines(eol) == "\n"
  {
    if eol == "\r\n" {
      assert eol[2..] == "";
    } else {
      assert eol[1..] == "";
    }
  }

  /** Each of the three line ends reads as one `'\n'`, wherever it stands and
      whatever line ends the rest of the text uses: a lone `'\n'` not just after a
      `'\r'`, a `'\r\n'`, or a lone `'\r'` not just before a `'\n'`. */
  lemma NewlinesOfLineEnd(a: string, eol: string, b: string)
    requires eol == "\n" || eol == "\r\n" || eol == "\r"
    requires eol == "\n" ==> |a| == 0 || a[|a| - 1] != '\r'
    requires eol == "\r" ==> |b| == 0 || b[0] != '\n'
    ensures Newlines(a + eol + b) == Newlines(a) + "\n" + Newlines(b)
  {
    assert a + eol + b == a + (eol + b);
    NewlinesAppend(a, eol + b);
    NewlinesAppend(eol, b);
    NewlinesOfEol(eol);
  }

  /** `s` with every `'\n'` written as the line end `eol`. */
  function EndLines(s: string, eol: string): (r: string)
    ensures eol == "\n" ==> r == s
    ensures '\n' !in eol ==> '\n' !in r
  {
    if |s| == 0 then ""
    else (if s[0] == '\n' then eol else [s[0]]) + EndLines(s[1..], eol)
  }

  /** Text mode reads a text written with Windows (`'\r\n'`) or old Macintosh
      (`'\r'`) line ends as the same text written with `'\n'`. */
  lemma {:induction false} NewlinesOfLineEnds(s: string, eol: string)
    requires '\r' !in s
    requires eol == "\n" || eol == "\r\n" || eol == "\r"
    ensures Newlines(EndLines(s, eol)) == s
  {
    if |s| > 0 {
      var rest := EndLines(s[1..], eol);
      NewlinesOfLineEnds(s[1..], eol);
      if s[0] == '\n' {
        if eol == "\r" {
          assert |rest| > 0 ==> rest[0] != '\n';
          assert EndLines(s, eol) == ['\r'] + rest;
        } else if eol == "\r\n" {
          assert EndLines(s, eol) == ['\r', '\n'] + rest;
          assert EndLines(s, eol)[2..] == rest;
        }
      } else {
        assert EndLines(s, eol) == [s[0]] + rest;
      }
      assert s == [s[0]] + s[1..];
    }
  }

  /** A keyword file loads the same keywords whichever line ends it was saved
      with. */
  lemma LineEndsLoadAlike(s: string, eol: string)
    requires '\r' !in s
    requires eol == "\n" || eol == "\r\n" || eol == "\r"
    ensures GetKeywords(EndLines(s, eol)) == GetKeywords(s)
  {
    if |s| > 0 && s[0] == BOM {
      assert EndLines(s, eol)[1..] == EndLines(s[1..], eol);
      NewlinesOfLineEnds(s[1..], eol);
      NewlinesKeepsPlainText(s[1..]);
    } else {
      NewlinesOfLineEnds(s, eol);
      NewlinesKeepsPlainText(s);
    }
  }

  /** One leading byte-order mark makes no difference to the keywords. */
  lemma BomDropped(raw: string)
    requires |raw| == 0 || raw[0] != BOM
    ensures GetKeywords([BOM] + raw) == GetKeywords(raw)
  {
    assert ([BOM] + raw)[1..] == raw;
  }

  /** The keywords of a keyword file: the `'\n'`-separated lines of its decoded
      text, without the empty ones, deduplicated and sorted. Lines are not trimmed. */
  function GetKeywords(raw: string): seq<string>
  {
    SortedSet(NonEmpty(Split(Decode(raw), '\n')))
  }

  /** The re-saved keyword file: each keyword followed by `'\n'`. */
  function Serialize(ks: seq<string>): string
  {
    if |ks| == 0 then "" else ks[0] + "\n" + Serialize(ks[1..])
  }

  lemma {:induction false} InsertKeepsOrder(ks: seq<string>, x: string)
    requires StrictlySorted(ks)
    ensures StrictlySorted(Insert(ks, x))
    ensures forall y :: y in Insert(ks, x) <==> y in ks || y == x
  {
    if |ks| == 0 {
    } else if x == ks[0] {
    } else if Less(x, ks[0]) {
      forall j | 0 < j < |ks|
        ensures Less(x, ks[j])
      {
        LessTransitive(x, ks[0], ks[j]);
      }
    } else {
      LessTotal(x, ks[0]);
      assert StrictlySorted(ks[1..]);
      InsertKeepsOrder(ks[1..], x);
      var r := Insert(ks[1..], x);
      assert forall y :: y in r ==> Less(ks[0], y);
      assert ks == [ks[0]] + ks[1..];
    }
  }

  lemma {:induction false} SortedSetIsSortedSet(lines: seq<string>)
    ensures StrictlySorted(SortedSet(lines))
    ensures forall y :: y in SortedSet(lines) <==> y in lines
  {
    if |lines| > 0 {
      var init := lines[..|lines| - 1];
      SortedSetIsSortedSet(init);
      InsertKeepsOrder(SortedSet(init), lines[|lines| - 1]);
      assert lines == init + [lines[|lines| - 1]];
    }
  }

  /** The loaded keyword list is strictly ascending, hence holds no duplicates; holds
      no empty string; and holds exactly the non-empty lines of the file, untrimmed. */
  lemma KeywordsCanonical(raw: string)
    ensures StrictlySorted(GetKeywords(raw))
    ensures forall i, j :: 0 <= i < j < |GetKeywords(raw)| ==> GetKeywords(raw)[i] != GetKeywords(raw)[j]
    ensures "" !in GetKeywords(raw)
    ensures forall k :: k in GetKeywords(raw) <==> k in Split(Decode(raw), '\n') && k != ""
    ensures forall k :: k in GetKeywords(raw) ==> '\n' !in k && '\r' !in k
  {
    var ks := GetKeywords(raw);
    var lines := Split(Decode(raw), '\n');
    SortedSetIsSortedSet(NonEmpty(lines));
    forall i, j | 0 <= i < j < |ks|
      ensures ks[i] != ks[j]
    {
      LessIrreflexive(ks[i]);
    }
    forall k | k in ks
      ensures '\r' !in k
    {
      var i :| 0 <= i < |lines| && lines[i] == k;
      JoinHasPiece(lines, '\n', i);
    }
  }

  /** Two strictly sorted lists with the same elements are the same list. */
  lemma {:induction false} SortedUnique(a: seq<string>, b: seq<string>)
    requires StrictlySorted(a) && StrictlySorted(b)
    requires forall x :: x in a <==> x in b
    ensures a == b
  {
    assert |b| > 0 ==> b[0] in a;
    if |a| > 0 {
      assert a[0] in b;
      assert |b| > 0;
      if a[0] != b[0] {
        var j :| 0 <= j < |b| && b[j] == a[0];
        assert b[0] in a;
        var i :| 0 <= i < |a| && a[i] == b[0];
        LessAsymmetric(b[0], a[0]);
      }
      forall x
        ensures x in a[1..] <==> x in b[1..]
      {
        if x in a[1..] {
          var i :| 1 <= i < |a| && a[i] == x;
          LessIrreflexive(x);
          assert x in b;
          assert x != b[0];
        }
        if x in b[1..] {
          var i :| 1 <= i < |b| && b[i] == x;
          LessIrreflexive(x);
          assert x in a;
          assert x != a[0];
        }
      }
      SortedUnique(a[1..], b[1..]);
      assert a == [a[0]] + a[1..] && b == [b[0]] + b[1..];
    }
  }

  /** Writing one more keyword appends its line. */
  lemma {:induction false} SerializeAppend(ks: seq<string>, k: string)
    ensures Serialize(ks + [k]) == Serialize(ks) + k + "\n"
  {
    if |ks| > 0 {
      SerializeAppend(ks[1..], k);
      assert (ks + [k])[1..] == ks[1..] + [k];
    }
  }

  /** The re-saved file is the keywords joined by `'\n'` plus a final empty line. */
  lemma {:induction false} SerializeIsJoin(ks: seq<string>)
    ensures Serialize(ks) == Join(ks + [""], '\n')
  {
    if |ks| > 0 {
      SerializeIsJoin(ks[1..]);
      assert (ks + [""])[1..] == ks[1..] + [""];
    }
  }

  /** Re-saving is idempotent: loading the re-saved file gives the same keywords, so
      the file stays as it is once it has been loaded once. This needs the first
      keyword not to begin with a byte-order mark, which the next load would drop. */
  lemma ResaveIsIdempotent(raw: string)
    requires |GetKeywords(raw)| == 0 || |GetKeywords(raw)[0]| == 0 || GetKeywords(raw)[0][0] != BOM
    ensures GetKeywords(Serialize(GetKeywords(raw))) == GetKeywords(raw)
    ensures Serialize(GetKeywords(Serialize(GetKeywords(raw)))) == Serialize(GetKeywords(raw))
  {
    var ks := GetKeywords(raw);
    KeywordsCanonical(raw);
    SerializeIsJoin(ks);
    var saved := Serialize(ks);
    assert '\r' !in saved by {
      forall c | c in saved
        ensures c != '\r'
      {
        SerializedChar(ks, c);
      }
    }
    assert |saved| > 0 ==> saved[0] == ks[0][0];
    NewlinesKeepsPlainText(saved);
    assert Decode(saved) == saved;
    SplitOfJoin(ks + [""], '\n');
    var again := GetKeywords(saved);
    KeywordsCanonical(saved);
    assert forall k :: k in again <==> k in ks;
    SortedUnique(again, ks);
  }

  /** Every character of the re-saved file is a keyword's or a line end. */
  lemma {:induction false} SerializedChar(ks: seq<string>, c: char)
    requires c in Serialize(ks)
    ensures c == '\n' || exists k :: k in ks && c in k
  {
    if c !in ks[0] && c != '\n' {
      SerializedChar(ks[1..], c);
      var k :| k in ks[1..] && c in k;
    }
  }

  /** A file that starts with two byte-order marks loses one per load: the first
      load keeps the second mark as part of the keyword, and it is written back at
      the start of the file, where the next load drops it. */
  lemma DoubleBomIsNotAFixpoint()
    ensures GetKeywords([BOM, BOM, 'b']) == [[BOM, 'b']]
    ensures GetKeywords(Serialize(GetKeywords([BOM, BOM, 'b']))) == ["b"]
  {
    NewlinesKeepsPlainText([BOM, 'b']);
    assert [BOM, BOM, 'b'][1..] == [BOM, 'b'];
    assert Split([BOM, 'b'], '\n') == [[BOM, 'b']] by {
      assert Split(['b'], '\n') == ["b"];
    }
    assert NonEmpty([[BOM, 'b']]) == [[BOM, 'b']];
    assert SortedSet([[BOM, 'b']]) == [[BOM, 'b']];
    assert Serialize([[BOM, 'b']]) == [BOM, 'b', '\n'];
    NewlinesKeepsPlainText(['b', '\n']);
    assert [BOM, 'b', '\n'][1..] == ['b', '\n'];
    assert Split(['b', '\n'], '\n') == ["b", ""] by {
      assert Split(['\n'], '\n') == ["", ""];
    }
    assert NonEmpty(["b", ""]) == ["b"];
    assert SortedSet(["b"]) == ["b"];
  }
}
