/** The pure steps of the poll request handlers: reading a poll out of an
    uploaded TXT, CSV or JSON file, validating a new poll and cleaning its
    options, and summarising a poll's results. */
module PollController {
  import opened Polls
  import opened Text
  import QuickSort
  import opened Seqs

  /** A poll as read from a request or a file, before it is stored. */
  datatype PollData = PollData(title: string, options: seq<string>)

  /** What is stored for a poll that passes validation. */
  datatype NewPoll = NewPoll(title: string, options: seq<string>)

  const UntitledPoll := "Untitled Poll"

  // ---------------------------------------------------------------------
  // Option cleaning
  // ---------------------------------------------------------------------

  /** `.map(l => l.trim()).filter(Boolean)`: the trimmed entries that are not
      empty, in their original order. */
  function Cleaned(lines: seq<string>): (r: seq<string>)
    ensures |r| <= |lines|
    ensures forall i :: 0 <= i < |r| ==> r[i] != [] && Trimmed(r[i])
  {
    if lines == [] then []
    else
      (if Blank(lines[0]) then [] else [Trim(lines[0])]) + Cleaned(lines[1..])
  }

  /** Cleaning works line by line, so it keeps the lines' order. */
  lemma {:induction false} CleanedAppend(a: seq<string>, b: seq<string>)
    ensures Cleaned(a + b) == Cleaned(a) + Cleaned(b)
  {
    if a != [] {
      assert (a + b)[1..] == a[1..] + b;
      CleanedAppend(a[1..], b);
    } else {
      assert a + b == b;
    }
  }

  /** A cleaned entry is the trimmed form of some non-blank input entry, and
      every non-blank input entry survives trimmed. */
  lemma {:induction false} CleanedMembers(lines: seq<string>, x: string)
    ensures x in Cleaned(lines) <==> exists i :: 0 <= i < |lines| && !Blank(lines[i]) && x == Trim(lines[i])
  {
    if lines != [] {
      CleanedMembers(lines[1..], x);
      if exists i :: 0 <= i < |lines| && !Blank(lines[i]) && x == Trim(lines[i]) {
        var i :| 0 <= i < |lines| && !Blank(lines[i]) && x == Trim(lines[i]);
        if i > 0 {
          assert lines[1..][i - 1] == lines[i];
        }
      }
      if x in Cleaned(lines[1..]) {
        var i :| 0 <= i < |lines[1..]| && !Blank(lines[1..][i]) && x == Trim(lines[1..][i]);
        assert lines[i + 1] == lines[1..][i];
      }
    }
  }

  predicate AllBlank(lines: seq<string>)
  {
    forall i :: 0 <= i < |lines| ==> Blank(lines[i])
  }

  /** Entry `i` is the first entry that is not blank. */
  predicate FirstNonBlank(lines: seq<string>, i: int)
  {
    0 <= i < |lines| && !Blank(lines[i]) && forall j :: 0 <= j < i ==> Blank(lines[j])
  }

  /** The first cleaned entry is the first non-blank input entry, trimmed;
      there is none exactly when every entry is blank. */
  lemma {:induction false} CleanedFirst(lines: seq<string>)
    ensures Cleaned(lines) == [] <==> AllBlank(lines)
    ensures Cleaned(lines) != [] ==> exists i :: FirstNonBlank(lines, i) && Cleaned(lines)[0] == Trim(lines[i])
  {
    if lines != [] {
      CleanedFirst(lines[1..]);
      if Blank(lines[0]) {
        CleanedFirstSkip(lines);
      } else {
        assert Cleaned(lines)[0] == Trim(lines[0]);
      }
    }
  }

  /** The step of `CleanedFirst` past a leading blank entry. */
  lemma CleanedFirstSkip(lines: seq<string>)
    requires lines != [] && Blank(lines[0])
    requires Cleaned(lines[1..]) == [] <==> AllBlank(lines[1..])
    requires Cleaned(lines[1..]) != [] ==>
      exists i :: FirstNonBlank(lines[1..], i) && Cleaned(lines[1..])[0] == Trim(lines[1..][i])
    ensures Cleaned(lines) == [] <==> AllBlank(lines)
    ensures Cleaned(lines) != [] ==> exists i :: FirstNonBlank(lines, i) && Cleaned(lines)[0] == Trim(lines[i])
  {
    CleanedSkipsBlank(lines);
    if Cleaned(lines) != [] {
      var i :| FirstNonBlank(lines[1..], i) && Cleaned(lines[1..])[0] == Trim(lines[1..][i]);
      FirstNonBlankShift(lines, i);
    }
  }

  lemma FirstNonBlankShift(lines: seq<string>, i: int)
    requires lines != [] && Blank(lines[0]) && FirstNonBlank(lines[1..], i)
    ensures FirstNonBlank(lines, i + 1) && lines[i + 1] == lines[1..][i]
  {
    forall j | 0 < j < i + 1
      ensures Blank(lines[j])
    {
      assert lines[j] == lines[1..][j - 1];
    }
  }

  lemma CleanedSkipsBlank(lines: seq<string>)
    requires lines != [] && Blank(lines[0])
    ensures Cleaned(lines) == Cleaned(lines[1..])
  {
  }

  /** Cleaning an already cleaned list changes nothing. */
  lemma {:induction false} CleanedIdempotent(lines: seq<string>)
    ensures Cleaned(Cleaned(lines)) == Cleaned(lines)
  {
    if lines != [] {
      CleanedIdempotent(lines[1..]);
      var rest := Cleaned(lines[1..]);
      if !Blank(lines[0]) {
        var t := Trim(lines[0]);
        TrimTrimmed(t);
        assert Cleaned(lines) == [t] + rest;
        assert Cleaned([t] + rest) == [t] + Cleaned(rest) by {
          assert ([t] + rest)[1..] == rest;
        }
      } else {
        assert Cleaned(lines) == rest;
      }
    }
  }

  // ---------------------------------------------------------------------
  // TXT files
  // ---------------------------------------------------------------------

  /** `parseTXT`: line one is the title, the remaining lines the options,
      after trimming every line and dropping the empty ones. */
  function ParseTxt(content: string): (r: PollData)
    ensures r.title != []
    ensures forall i :: 0 <= i < |r.options| ==> r.options[i] != [] && Trimmed(r.options[i])
  {
    var lines := Cleaned(Split(content, '\n'));
    PollData(if lines != [] then lines[0] else UntitledPoll, if lines != [] then lines[1..] else [])
  }

  /** The title of a TXT poll is its first non-blank line, trimmed, and
      "Untitled Poll" when every line is blank. */
  lemma ParseTxtTitle(content: string)
    ensures AllBlank(Split(content, '\n')) ==> ParseTxt(content).title == UntitledPoll
    ensures var lines := Split(content, '\n');
      !AllBlank(lines) ==>
      exists i :: FirstNonBlank(lines, i) && ParseTxt(content).title == Trim(lines[i])
  {
    var lines := Split(content, '\n');
    CleanedFirst(lines);
    var cleaned := Cleaned(lines);
    if cleaned == [] {
      assert ParseTxt(content).title == UntitledPoll;
    } else {
      assert ParseTxt(content).title == cleaned[0];
      var i :| FirstNonBlank(lines, i) && cleaned[0] == Trim(lines[i]);
    }
  }

  /** The options of a TXT poll are the non-blank lines after the title's,
      trimmed and in file order: title and options together are exactly the
      cleaned lines. */
  lemma ParseTxtOptions(content: string)
    ensures var lines := Cleaned(Split(content, '\n'));
      var r := ParseTxt(content);
      (lines == [] ==> r.options == []) && (lines != [] ==> [r.title] + r.options == lines)
      && |r.options| == if lines == [] then 0 else |lines| - 1
  {
    var lines := Cleaned(Split(content, '\n'));
    if lines != [] {
      assert [lines[0]] + lines[1..] == lines;
    }
  }

  // ---------------------------------------------------------------------
  // CSV files
  // ---------------------------------------------------------------------

  /** A parsed CSV row; a missing column reads as the empty string. */
  datatype CsvRow = CsvRow(title: string, option: string)

  function Options(rows: seq<CsvRow>): (r: seq<string>)
    ensures |r| == |rows| && forall i :: 0 <= i < |rows| ==> r[i] == rows[i].option
  {
    if rows == [] then [] else [rows[0].option] + Options(rows[1..])
  }

  /** `.filter(Boolean)` on strings: the non-empty ones, in order. */
  function NonEmpty(s: seq<string>): (r: seq<string>)
    ensures |r| <= |s| && forall x :: x in r <==> x in s && x != []
  {
    if s == [] then [] else (if s[0] == [] then [] else [s[0]]) + NonEmpty(s[1..])
  }

  /** The entries of `s` not in `seen`, each at its first occurrence. */
  function Dedup(s: seq<string>, seen: set<string>): (r: seq<string>)
    ensures |r| <= |s|
  {
    if s == [] then []
    else if s[0] in seen then Dedup(s[1..], seen)
    else [s[0]] + Dedup(s[1..], seen + {s[0]})
  }

  /** `Dedup` keeps exactly the entries not already seen. */
  lemma {:induction false} DedupMembers(s: seq<string>, seen: set<string>)
    ensures forall x :: x in Dedup(s, seen) <==> x in s && x !in seen
  {
    if s != [] {
      assert s == [s[0]] + s[1..];
      if s[0] in seen {
        DedupMembers(s[1..], seen);
      } else {
        DedupMembers(s[1..], seen + {s[0]});
      }
    }
  }

  /** `Dedup` returns no entry twice. */
  lemma {:induction false} DedupDistinct(s: seq<string>, seen: set<string>)
    ensures forall i, j :: 0 <= i < j < |Dedup(s, seen)| ==> Dedup(s, seen)[i] != Dedup(s, seen)[j]
  {
    if s != [] {
      if s[0] in seen {
        DedupDistinct(s[1..], seen);
      } else {
        var rest := Dedup(s[1..], seen + {s[0]});
        DedupDistinct(s[1..], seen + {s[0]});
        DedupMembers(s[1..], seen + {s[0]});
        assert s[0] !in rest;
        var r := [s[0]] + rest;
        forall i, j | 0 <= i < j < |r|
          ensures r[i] != r[j]
        {
          if i == 0 {
            assert r[j] == rest[j - 1] && rest[j - 1] in rest;
          } else {
            assert r[i] == rest[i - 1] && r[j] == rest[j - 1];
          }
        }
      }
    }
  }

  /** `[...new Set(s)]` keeps insertion order: a new entry goes at the end,
      a repeated one changes nothing. */
  lemma {:induction false} DedupSnoc(s: seq<string>, seen: set<string>, x: string)
    ensures Dedup(s + [x], seen) == if x in s || x in seen then Dedup(s, seen) else Dedup(s, seen) + [x]
  {
    if s == [] {
      assert Dedup([x], seen) == if x in seen then [] else [x] + Dedup([], seen + {x});
    } else if s[0] in seen {
      DedupSnoc(s[1..], seen, x);
      DedupSnocSkip(s, seen, x);
    } else {
      DedupSnoc(s[1..], seen + {s[0]}, x);
      DedupSnocKeep(s, seen, x);
    }
  }

  lemma DedupSnocSkip(s: seq<string>, seen: set<string>, x: string)
    requires s != [] && s[0] in seen
    requires Dedup(s[1..] + [x], seen) == if x in s[1..] || x in seen then Dedup(s[1..], seen) else Dedup(s[1..], seen) + [x]
    ensures Dedup(s + [x], seen) == if x in s || x in seen then Dedup(s, seen) else Dedup(s, seen) + [x]
  {
    SnocParts(s, x);
    MemberCons(s, x);
  }

  lemma DedupSnocKeep(s: seq<string>, seen: set<string>, x: string)
    requires s != [] && s[0] !in seen
    requires var seen' := seen + {s[0]};
      Dedup(s[1..] + [x], seen') == if x in s[1..] || x in seen' then Dedup(s[1..], seen') else Dedup(s[1..], seen') + [x]
    ensures Dedup(s + [x], seen) == if x in s || x in seen then Dedup(s, seen) else Dedup(s, seen) + [x]
  {
    SnocParts(s, x);
    MemberCons(s, x);
    DedupKeepsHead(s + [x], seen);
    DedupKeepsHead(s, seen);
    if !(x in s || x in seen) {
      ConsAppend(s[0], Dedup(s[1..], seen + {s[0]}), [x]);
    }
  }

  lemma DedupKeepsHead(u: seq<string>, seen: set<string>)
    requires u != [] && u[0] !in seen
    ensures Dedup(u, seen) == [u[0]] + Dedup(u[1..], seen + {u[0]})
  {
  }

  /** Parsing a CSV file: rejected when it has no rows; otherwise the first
      row's title (or "Untitled Poll") and the distinct non-empty options in
      order of first appearance. */
  function ParseCsv(rows: seq<CsvRow>): (r: Result<PollData>)
    ensures rows == [] <==> r.Err?
    ensures r.Ok? ==> r.value.title == (if rows[0].title != [] then rows[0].title else UntitledPoll)
    ensures r.Ok? ==> forall x :: x in r.value.options <==> exists i :: 0 <= i < |rows| && rows[i].option == x && x != []
    ensures r.Ok? ==> forall i, j :: 0 <= i < j < |r.value.options| ==> r.value.options[i] != r.value.options[j]
  {
    if rows == [] then Err("Empty CSV file")
    else
      var title := if rows[0].title != [] then rows[0].title else UntitledPoll;
      var options := Dedup(NonEmpty(Options(rows)), {});
      DedupMembers(NonEmpty(Options(rows)), {});
      DedupDistinct(NonEmpty(Options(rows)), {});
      assert forall x :: x in Options(rows) <==> exists i :: 0 <= i < |rows| && rows[i].option == x by {
        forall x | x in Options(rows)
          ensures exists i :: 0 <= i < |rows| && rows[i].option == x
        {
          var i :| 0 <= i < |rows| && Options(rows)[i] == x;
        }
      }
      Ok(PollData(title, options))
  }

  // ---------------------------------------------------------------------
  // JSON files
  // ---------------------------------------------------------------------

  /** The JSON upload: its `title`, and its `options` defaulting to none. */
  function ParseJson(title: string, options: Option<seq<string>>): (r: PollData)
    ensures r.title == title
    ensures options.None? ==> r.options == []
    ensures options.Some? ==> r.options == options.value
  {
    PollData(title, match options case Some(o) => o case None => [])
  }

  // ---------------------------------------------------------------------
  // Validation
  // ---------------------------------------------------------------------

  const CreateRejection := "Title and at least 2 options are required"
  const UploadRejection := "File must contain a title and at least 2 options"

  /** `createPoll`: rejects an empty title or fewer than two raw options;
      otherwise stores the title and the non-blank options, trimmed. */
  function CreatePoll(title: string, options: Option<seq<string>>): (r: Result<NewPoll>)
    ensures r.Err? <==> title == [] || options.None? || |options.value| < 2
    ensures r.Err? ==> r.message == CreateRejection
    ensures r.Ok? ==> r.value.title == title && r.value.options == Cleaned(options.value)
  {
    if title == [] || options.None? || |options.value| < 2 then Err(CreateRejection)
    else Ok(NewPoll(title, Cleaned(options.value)))
  }

  /** The length check runs before blank options are dropped, so a poll
      with only one real option is accepted. */
  lemma CreatePollKeepsTooFew()
    ensures var r := CreatePoll("Lunch?", Some(["pizza", "  "]));
      r.Ok? && |r.value.options| == 1
  {
    var r := CreatePoll("Lunch?", Some(["pizza", "  "]));
    assert Blank("  ") by {
      assert forall k :: 0 <= k < |"  "| ==> IsSpace("  "[k]);
    }
    assert !Blank("pizza") by {
      assert !IsSpace("pizza"[0]);
    }
    assert Cleaned(["pizza", "  "]) == [Trim("pizza")] + Cleaned(["  "]);
    assert Cleaned(["  "]) == [] + Cleaned([]);
  }

  /** `uploadPoll` after parsing: rejects a missing title or fewer than two
      options; otherwise stores the title and the non-blank options, trimmed. */
  function ValidateUpload(data: PollData): (r: Result<NewPoll>)
    ensures r.Err? <==> data.title == [] || |data.options| < 2
    ensures r.Err? ==> r.message == UploadRejection
    ensures r.Ok? ==> r.value.title == data.title && r.value.options == Cleaned(data.options)
  {
    if data.title == [] || |data.options| < 2 then Err(UploadRejection)
    else Ok(NewPoll(data.title, Cleaned(data.options)))
  }

  /** A request without a file, or one of the three upload formats after the
      file has been read; any other extension is `Unsupported`. */
  datatype Upload = NoFile | CsvFile(rows: seq<CsvRow>) | JsonFile(title: string, options: Option<seq<string>>)
                  | TxtFile(content: string) | Unsupported

  const NoFileRejection := "No file uploaded"
  const UnsupportedRejection := "Unsupported file format"
  const UploadFailure := "Failed to create poll from file"

  /** `uploadPoll`: dispatches on the format, then validates. An empty CSV
      file makes the parser fail, which the handler reports as a failure. */
  function UploadPoll(file: Upload): (r: Result<NewPoll>)
    ensures file.NoFile? ==> r == Err(NoFileRejection)
    ensures file.Unsupported? ==> r == Err(UnsupportedRejection)
    ensures file.CsvFile? && file.rows == [] ==> r == Err(UploadFailure)
    ensures file.CsvFile? && file.rows != [] ==> r == ValidateUpload(ParseCsv(file.rows).value)
    ensures file.JsonFile? ==> r == ValidateUpload(ParseJson(file.title, file.options))
    ensures file.TxtFile? ==> r == ValidateUpload(ParseTxt(file.content))
  {
    match file
    case NoFile => Err(NoFileRejection)
    case CsvFile(rows) =>
      (match ParseCsv(rows)
       case Err(_) => Err(UploadFailure)
       case Ok(data) => ValidateUpload(data))
    case JsonFile(title, options) => ValidateUpload(ParseJson(title, options))
    case TxtFile(content) => ValidateUpload(ParseTxt(content))
    case Unsupported => Err(UnsupportedRejection)
  }

  /** A TXT upload is accepted exactly when the file has at least three
      non-blank lines, and then every option it lists is stored as is. */
  lemma TxtUploadAccepted(content: string)
    ensures var lines := Cleaned(Split(content, '\n'));
      var r := UploadPoll(TxtFile(content));
      (r.Ok? <==> |lines| >= 3)
      && (r.Ok? ==> r.value.options == ParseTxt(content).options)
  {
    var lines := Cleaned(Split(content, '\n'));
    ParseTxtOptions(content);
    if lines != [] {
      CleanedIdempotent(Split(content, '\n'));
      CleanedAppend([lines[0]], lines[1..]);
      assert Cleaned([lines[0]]) == [lines[0]] by {
        TrimTrimmed(lines[0]);
        assert !Blank(lines[0]);
        assert Cleaned([lines[0]]) == [Trim(lines[0])] + Cleaned([]);
      }
    }
  }

  // ---------------------------------------------------------------------
  // Results
  // ---------------------------------------------------------------------

  /** `rows.reduce((sum, r) => sum + r.vote_count, 0)`. */
  function TotalVotes(rows: seq<OptionTally>): (r: int)
    ensures (forall i :: 0 <= i < |rows| ==> rows[i].voteCount >= 0) ==> r >= 0
  {
    if rows == [] then 0 else TotalVotes(rows[..|rows| - 1]) + rows[|rows| - 1].voteCount
  }

  lemma {:induction false} TotalVotesAppend(a: seq<OptionTally>, b: seq<OptionTally>)
    ensures TotalVotes(a + b) == TotalVotes(a) + TotalVotes(b)
    decreases |b|
  {
    if b == [] {
      assert a + b == a;
    } else {
      assert (a + b)[..|a + b| - 1] == a + b[..|b| - 1];
      TotalVotesAppend(a, b[..|b| - 1]);
    }
  }

  /** The total does not depend on the order of the rows, so sorting the
      results leaves it unchanged. */
  lemma {:induction false} TotalVotesPermutation(a: seq<OptionTally>, b: seq<OptionTally>)
    requires multiset(a) == multiset(b)
    ensures TotalVotes(a) == TotalVotes(b)
    decreases |a|
  {
    if a != [] {
      var x := a[|a| - 1];
      assert x in multiset(b) by {
        assert a == a[..|a| - 1] + [x];
      }
      var k :| 0 <= k < |b| && b[k] == x;
      MultisetRemoveLast(a, b, k);
      TotalVotesPermutation(a[..|a| - 1], b[..k] + b[k + 1..]);
      TotalVotesRemove(b, k);
    }
  }

  lemma TotalVotesRemove(b: seq<OptionTally>, k: int)
    requires 0 <= k < |b|
    ensures TotalVotes(b) == TotalVotes(b[..k] + b[k + 1..]) + b[k].voteCount
  {
    SplitAt(b, k + 1);
    TotalVotesAppend(b[..k + 1], b[k + 1..]);
    TakeTake(b, k + 1, k);
    TotalVotesAppend(b[..k], b[k + 1..]);
  }

  /** With no negative counts the total bounds every count from above. */
  lemma {:induction false} TotalVotesBounds(rows: seq<OptionTally>)
    requires forall i :: 0 <= i < |rows| ==> rows[i].voteCount >= 0
    ensures TotalVotes(rows) >= 0
    ensures forall i :: 0 <= i < |rows| ==> rows[i].voteCount <= TotalVotes(rows)
  {
    if rows != [] {
      TotalVotesBounds(rows[..|rows| - 1]);
    }
  }

  /** `winner`: the first row, or `None` without rows. */
  function Winner(rows: seq<OptionTally>): (r: Option<OptionTally>)
    ensures r.None? <==> rows == []
    ensures r.Some? ==> r.value == rows[0]
  {
    if rows == [] then None else Some(rows[0])
  }

  /** The rows arrive ordered by descending vote count, so the winner has
      the most votes. */
  lemma WinnerHasMostVotes(rows: seq<OptionTally>)
    requires QuickSort.InOrder(rows, QuickSort.VoteCount, "desc")
    ensures Winner(rows).Some? ==> forall i :: 0 <= i < |rows| ==> Winner(rows).value.voteCount >= rows[i].voteCount
  {
    if rows != [] {
      forall i | 0 < i < |rows|
        ensures rows[0].voteCount >= rows[i].voteCount
      {
        assert QuickSort.Val(rows[0], QuickSort.VoteCount) >= QuickSort.Val(rows[i], QuickSort.VoteCount);
      }
    }
  }
}
