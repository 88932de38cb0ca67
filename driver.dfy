/**
  The two shapes of `main()` around the batch. The earlier copy shows the
  results and downloads only on the run in which the button is pressed; the
  current one keeps them in session state, replaces them after each batch,
  and shows the stored ones on every later run while processing is offered.
*/
module Driver {
  import opened Archiver
  import opened Batch

  /**
    One run of the earlier `main()`: with files uploaded, build the password
    map; offer processing when it is not empty; when the button is pressed,
    process the batch and offer its downloads.
  */
  method RunOnce(files: seq<Upload>, mode: PasswordMode, pressed: bool)
    returns (offered: bool, results: seq<Outcome>, offer: Offer)
    ensures offered <==> files != [] && Assignment(files, mode) != map[]
    ensures offered && pressed ==>
      && |results| == |files|
      && (forall i :: 0 <= i < |files| ==> results[i] == OutcomeOf(files[i], Assignment(files, mode)))
      && offer == Downloads(Outputs(files, Assignment(files, mode)))
    ensures !(offered && pressed) ==> results == [] && offer == NoDownload
  {
    offered, results, offer := false, [], NoDownload;
    if files != [] {
      var passwords := AssignPasswords(files, mode);
      offered := passwords != map[];
      if offered && pressed {
        var unlocked;
        unlocked, results := ProcessBatch(files, passwords);
        offer := OfferDownloads(unlocked);
      }
    }
  }

  /** The session state of the current `main()`: the last batch's pairs and results. */
  class Session {
    var unlockedFiles: seq<UnlockedFile>
    var results: seq<Outcome>

    /** A fresh session starts with both lists empty. */
    constructor ()
      ensures unlockedFiles == [] && results == []
    {
      unlockedFiles := [];
      results := [];
    }

    /**
      One rerun of the current `main()`. A pressed button replaces the stored
      lists with the new batch's; otherwise they are kept. While processing is
      offered the stored results are shown, and the stored pairs decide the
      download offer.
    */
    method Rerun(files: seq<Upload>, mode: PasswordMode, pressed: bool)
      returns (offered: bool, shown: seq<Outcome>, offer: Offer)
      modifies this
      ensures offered <==> files != [] && Assignment(files, mode) != map[]
      ensures offered && pressed ==>
        && |results| == |files|
        && (forall i :: 0 <= i < |files| ==> results[i] == OutcomeOf(files[i], Assignment(files, mode)))
        && unlockedFiles == Outputs(files, Assignment(files, mode))
      ensures !(offered && pressed) ==> results == old(results) && unlockedFiles == old(unlockedFiles)
      ensures shown == (if offered then results else [])
      ensures offer == (if offered && results != [] then Downloads(unlockedFiles) else NoDownload)
    {
      offered, shown, offer := false, [], NoDownload;
      if files != [] {
        var passwords := AssignPasswords(files, mode);
        offered := passwords != map[];
        if offered {
          if pressed {
            unlockedFiles, results := ProcessBatch(files, passwords);
          }
          if results != [] {
            shown := results;
            offer := OfferDownloads(unlockedFiles);
          }
        }
      }
    }
  }
}
