/**
  The batch driver of `main()`: the name-to-password map built from the
  password settings, and the loop over the uploaded files that records one
  result per file and one unlocked pair per success.
*/
module Batch {
  import opened Wrappers
  import opened PosixPath
  import opened Decryptor
  import opened Archiver

  /** An uploaded file: its name and the document the library reads from it. */
  datatype Upload = Upload(name: string, doc: Doc)

  /**
    The password settings: one shared field, or one field per file name.
    The model lets uploads with equal names share one field, where the
    source stops with a duplicate widget-key error. An untouched field holds
    the empty string.
  */
  datatype PasswordMode =
    | SamePassword(common: string)
    | PerFile(entered: string -> string)

  /** The text in the field that applies to the file called `name`. */
  function Entered(mode: PasswordMode, name: string): string
  {
    match mode
    case SamePassword(common) => common
    case PerFile(entered) => entered(name)
  }

  function Names(files: seq<Upload>): set<string>
  {
    set i | 0 <= i < |files| :: files[i].name
  }

  /** The map the settings produce: a name is present exactly when its field is not empty. */
  function Assignment(files: seq<Upload>, mode: PasswordMode): (m: map<string, string>)
    ensures m.Keys <= Names(files)
    ensures "" !in m.Values
    ensures forall n :: n in Names(files) && Entered(mode, n) != "" ==> n in m && m[n] == Entered(mode, n)
  {
    map n | n in Names(files) && Entered(mode, n) != "" :: Entered(mode, n)
  }

  lemma NamesSnoc(files: seq<Upload>, i: nat)
    requires i < |files|
    ensures Names(files[..i + 1]) == Names(files[..i]) + {files[i].name}
  {
    var before, after := files[..i], files[..i + 1];
    assert after[i] == files[i];
    forall n | n in Names(after) ensures n in Names(before) + {files[i].name} {
      var j :| 0 <= j < |after| && after[j].name == n;
      if j < i { assert before[j] == after[j]; }
    }
    forall n | n in Names(before) ensures n in Names(after) {
      var j :| 0 <= j < |before| && before[j].name == n;
      assert after[j] == before[j];
    }
  }

  /**
    Building `passwords`: with one shared password every uploaded name maps
    to it (and nothing is recorded when it is empty); with per-file fields,
    exactly the names whose field is filled in are recorded. Processing is
    offered when the map is not empty.
  */
  method AssignPasswords(files: seq<Upload>, mode: PasswordMode) returns (passwords: map<string, string>)
    ensures passwords == Assignment(files, mode)
    ensures forall n :: n in passwords <==> n in Names(files) && Entered(mode, n) != ""
    ensures forall n :: n in passwords ==> passwords[n] == Entered(mode, n)
    ensures "" !in passwords.Values
    ensures mode.SamePassword? && mode.common == "" ==> passwords == map[]
    ensures mode.SamePassword? && mode.common != "" ==>
      passwords.Keys == Names(files) && forall n :: n in passwords ==> passwords[n] == mode.common
    ensures passwords != map[] <==> exists i :: 0 <= i < |files| && Entered(mode, files[i].name) != ""
  {
    passwords := map[];
    assert files[..0] == [];
    if mode.SamePassword? {
      if mode.common != "" {
        for i := 0 to |files|
          invariant passwords == Assignment(files[..i], mode)
        {
          NamesSnoc(files, i);
          passwords := passwords[files[i].name := mode.common];
        }
      }
    } else {
      for i := 0 to |files|
        invariant passwords == Assignment(files[..i], mode)
      {
        NamesSnoc(files, i);
        var password := mode.entered(files[i].name);
        if password != "" {
          passwords := passwords[files[i].name := password];
        }
      }
    }
    assert files[..|files|] == files;
    if passwords != map[] {
      var n :| n in passwords;
      var i :| 0 <= i < |files| && files[i].name == n;
    }
  }

  datatype Status = Success | Failed | Skipped
  {
    /** The word the status text ends with. */
    function Word(): string
    {
      match this
      case Success => "Success"
      case Failed => "Failed"
      case Skipped => "Skipped"
    }

    /** The status text stored in a result tuple: an emoji, a space and the status word. */
    function Label(): (r: string)
      ensures |r| > |Word()| && r[|r| - |Word()|..] == Word() && r[|r| - |Word()| - 1] == ' '
    {
      match this
      case Success => "\U{2705} Success"
      case Failed => "\U{274C} Failed"
      case Skipped => "\U{26A0}\U{FE0F} Skipped"
    }
  }

  /** Distinct statuses are stored as distinct texts. */
  lemma LabelInjective(s: Status, t: Status)
    ensures s.Label() == t.Label() ==> s == t
  {
  }

  /** A `(name, status, message)` result. */
  datatype Outcome = Outcome(fileName: string, status: Status, message: string)
  {
    /** The tuple the source appends to `results`, with the status as its text. */
    function Row(): (r: (string, string, string))
      ensures r.0 == fileName && r.1 == status.Label() && r.2 == message
    {
      (fileName, status.Label(), message)
    }
  }

  /** The stored tuple determines the result: nothing is lost by storing the status as text. */
  lemma RowDeterminesOutcome(o: Outcome, p: Outcome)
    requires o.Row() == p.Row()
    ensures o == p
  {
    LabelInjective(o.status, p.status);
  }

  const RemovedMessage := "Password removed successfully"
  const NoPasswordMessage := "No password provided"

  const Prefix := "unlocked_"
  const Suffix := ".pdf"

  /**
    The output name: the prefix, the input name without its extension, and
    `.pdf`. The middle part is a prefix of the input name, and the input
    name is that part followed by its extension.
  */
  function OutputName(name: string): (r: string)
    ensures Prefix <= r && |r| >= |Prefix| + |Suffix| && r[|r| - |Suffix|..] == Suffix
    ensures r[|Prefix|..|r| - |Suffix|] <= name
    ensures name == r[|Prefix|..|r| - |Suffix|] + SplitExt(name).1
  {
    var stem := Stem(name);
    var r := Prefix + stem + Suffix;
    assert r[|Prefix|..|r| - |Suffix|] == stem;
    r
  }

  lemma OutputNameReport()
    ensures OutputName("report.pdf") == "unlocked_report.pdf"
  {
    LastIndexAt("report.pdf", '/', -1);
    assert "report.pdf"[0] != '.';
    SplitExtUnique("report.pdf", "report", ".pdf");
  }

  lemma OutputNameHidden()
    ensures OutputName(".hidden") == "unlocked_.hidden.pdf"
  {
    LastIndexAt(".hidden", '/', -1);
    SplitExtUnique(".hidden", ".hidden", "");
  }

  /**
    Output names are not made unique: `a.pdf` and `a` both become
    `unlocked_a.pdf`.
  */
  lemma OutputNamesCollide()
    ensures OutputName("a.pdf") == OutputName("a") == "unlocked_a.pdf"
  {
    LastIndexAt("a.pdf", '/', -1);
    assert "a.pdf"[0] != '.';
    SplitExtUnique("a.pdf", "a", ".pdf");
    LastIndexAt("a", '/', -1);
    SplitExtUnique("a", "a", "");
  }

  /**
    The result recorded for one file: Skipped exactly when its name has no
    password; otherwise Success or Failed as `unlock_pdf` reports, a failure
    carrying its message.
  */
  function OutcomeOf(file: Upload, passwords: map<string, string>): (o: Outcome)
    ensures o.fileName == file.name
    ensures o.status == Skipped <==> file.name !in passwords
    ensures o.status == Skipped ==> o.message == NoPasswordMessage
    ensures o.status == Success <==> file.name in passwords && Unlock(file.doc, passwords[file.name]).success
    ensures o.status == Success ==> o.message == RemovedMessage
    ensures o.status == Failed ==> o.message == Unlock(file.doc, passwords[file.name]).message
  {
    if file.name !in passwords then Outcome(file.name, Skipped, NoPasswordMessage)
    else
      var u := Unlock(file.doc, passwords[file.name]);
      if u.success then Outcome(file.name, Success, RemovedMessage)
      else Outcome(file.name, Failed, u.message)
  }

  /** The pair appended for one file: present exactly on Success. */
  function OutputOf(file: Upload, passwords: map<string, string>): (r: Option<UnlockedFile>)
    ensures r.Some? <==> OutcomeOf(file, passwords).status == Success
    ensures r.Some? ==>
      r.value.filename == OutputName(file.name) &&
      Some(r.value.content) == Unlock(file.doc, passwords[file.name]).bytes &&
      r.value.content.pages == file.doc.pages
  {
    if file.name !in passwords then None
    else
      var u := Unlock(file.doc, passwords[file.name]);
      if u.success then Some(UnlockedFile(OutputName(file.name), u.bytes.value)) else None
  }

  /** The pairs a batch appends, in upload order; each is named with the `unlocked_` prefix. */
  function Outputs(files: seq<Upload>, passwords: map<string, string>): (r: seq<UnlockedFile>)
    ensures forall u :: u in r ==> Prefix <= u.filename
    decreases |files|
  {
    if files == [] then []
    else
      var earlier := Outputs(files[..|files| - 1], passwords);
      match OutputOf(files[|files| - 1], passwords)
      case Some(u) => earlier + [u]
      case None => earlier
  }

  /** The positions of the successful files, in increasing order. */
  function SuccessIndices(files: seq<Upload>, passwords: map<string, string>): (idx: seq<nat>)
    ensures forall k :: 0 <= k < |idx| ==> idx[k] < |files|
    ensures forall k, l :: 0 <= k < l < |idx| ==> idx[k] < idx[l]
    ensures forall i :: 0 <= i < |files| ==>
      (i in idx <==> OutcomeOf(files[i], passwords).status == Success)
    decreases |files|
  {
    if files == [] then []
    else
      var last := |files| - 1;
      var earlier := SuccessIndices(files[..last], passwords);
      assert forall i :: 0 <= i < last ==> files[..last][i] == files[i];
      if OutcomeOf(files[last], passwords).status == Success then earlier + [last] else earlier
  }

  /**
    The unlocked pairs are exactly the successes, in upload order: the k-th
    pair is the output of the k-th successful file.
  */
  lemma {:induction false} OutputsMatchSuccesses(files: seq<Upload>, passwords: map<string, string>)
    ensures |Outputs(files, passwords)| == |SuccessIndices(files, passwords)|
    ensures forall k :: 0 <= k < |Outputs(files, passwords)| ==>
      OutputOf(files[SuccessIndices(files, passwords)[k]], passwords) == Some(Outputs(files, passwords)[k])
    decreases |files|
  {
    if files != [] {
      var last := |files| - 1;
      var init := files[..last];
      OutputsMatchSuccesses(init, passwords);
      var earlier := Outputs(init, passwords);
      var earlierIdx := SuccessIndices(init, passwords);
      forall k | 0 <= k < |earlierIdx|
        ensures OutputOf(files[earlierIdx[k]], passwords) == Some(earlier[k])
      {
        assert files[earlierIdx[k]] == init[earlierIdx[k]];
      }
      if OutputOf(files[last], passwords).Some? {
        assert Outputs(files, passwords) == earlier + [OutputOf(files[last], passwords).value];
        assert SuccessIndices(files, passwords) == earlierIdx + [last];
      } else {
        assert Outputs(files, passwords) == earlier;
        assert SuccessIndices(files, passwords) == earlierIdx;
      }
    }
  }

  /** Every unlocked pair is named after a successful upload. */
  lemma OutputNamesFromSuccesses(files: seq<Upload>, passwords: map<string, string>, k: nat)
    requires k < |Outputs(files, passwords)|
    ensures exists i ::
      && 0 <= i < |files|
      && OutcomeOf(files[i], passwords).status == Success
      && Outputs(files, passwords)[k].filename == OutputName(files[i].name)
  {
    OutputsMatchSuccesses(files, passwords);
    var i := SuccessIndices(files, passwords)[k];
    assert OutputOf(files[i], passwords) == Some(Outputs(files, passwords)[k]);
  }

  /**
    The loop over the uploads: one result per file in upload order, and an
    unlocked pair for each success, in the same relative order.
  */
  method ProcessBatch(files: seq<Upload>, passwords: map<string, string>)
    returns (unlocked: seq<UnlockedFile>, results: seq<Outcome>)
    ensures |results| == |files|
    ensures forall i :: 0 <= i < |files| ==> results[i] == OutcomeOf(files[i], passwords)
    ensures unlocked == Outputs(files, passwords)
  {
    unlocked, results := [], [];
    assert files[..0] == [];
    for i := 0 to |files|
      invariant |results| == i
      invariant forall j :: 0 <= j < i ==> results[j] == OutcomeOf(files[j], passwords)
      invariant unlocked == Outputs(files[..i], passwords)
    {
      var file := files[i];
      assert files[..i + 1][..i] == files[..i];
      if file.name in passwords {
        var u := UnlockPdf(file.doc, passwords[file.name]);
        if u.success {
          var nameWithoutExt := Stem(file.name);
          var outputFilename := Prefix + nameWithoutExt + Suffix;
          unlocked := unlocked + [UnlockedFile(outputFilename, u.bytes.value)];
          results := results + [Outcome(file.name, Success, RemovedMessage)];
        } else {
          results := results + [Outcome(file.name, Failed, u.message)];
        }
      } else {
        results := results + [Outcome(file.name, Skipped, NoPasswordMessage)];
      }
    }
    assert files[..|files|] == files;
  }

  /**
    A concrete batch: `a.pdf` encrypted with password "x" and `b.pdf` not
    encrypted, with only `a.pdf` given a password. `a.pdf` succeeds, `b.pdf`
    is skipped (its name has no password, so it is never opened), and the
    single output is `unlocked_a.pdf`.
  */
  lemma TwoFileExample(pages: seq<Page>)
    ensures
      var a := Upload("a.pdf", Doc(NoFault, true, pw => pw == "x", pages));
      var b := Upload("b.pdf", Doc(NoFault, false, pw => false, pages));
      var passwords := map["a.pdf" := "x"];
      && OutcomeOf(a, passwords) == Outcome("a.pdf", Success, RemovedMessage)
      && OutcomeOf(b, passwords) == Outcome("b.pdf", Skipped, NoPasswordMessage)
      && Outputs([a, b], passwords) == [UnlockedFile("unlocked_a.pdf", Written(pages))]
      && Downloads(Outputs([a, b], passwords)).Direct?
  {
    var a := Upload("a.pdf", Doc(NoFault, true, pw => pw == "x", pages));
    var b := Upload("b.pdf", Doc(NoFault, false, pw => false, pages));
    var passwords := map["a.pdf" := "x"];
    OutputNamesCollide();
    assert [a, b][..1] == [a];
    assert [a][..0] == [];
    assert OutputOf(a, passwords) == Some(UnlockedFile("unlocked_a.pdf", Written(pages)));
    assert Outputs([a], passwords) == [UnlockedFile("unlocked_a.pdf", Written(pages))];
    assert OutputOf(b, passwords) == None;
  }
}
