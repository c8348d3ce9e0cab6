/**
 * The download queue coordinator of the background script: the pending
 * queue, the queue saved by a pause, the two flags, the target folder and the
 * download history, the message branches that change them, and the drain
 * that takes one image at a time from the pending queue.
 *
 * The platform download call is not modelled: `Step` returns the image and
 * destination path it would be called with, and `Complete` is told what the
 * call reported. Broadcast notifications are appended to the ghost `events` log.
 */
module Background {
  import opened Types
  import opened Text

  /** The notifications the coordinator broadcasts. */
  datatype Event =
    | DownloadPaused(remaining: nat)
    | DownloadCancelled(cancelled: nat)
    | DownloadComplete
    | ImageDownloaded(image: Item, remaining: nat)
    | ImageDownloadFailed(image: Item, error: string, remaining: nat)

  /** What a drain step ends with: nothing more to do, or a download to issue. */
  datatype Issue = Stopped | Issued(image: Item, path: string)

  /** The reply to a status request. */
  datatype Status = Status(isDownloading: bool, isPaused: bool, queueLength: nat, pausedQueueLength: nat)

  // ---------------------------------------------------------------------------
  // destination path

  /** The file name placed under the folder, when a folder is set. */
  function InFolder(folder: string, filename: string): string {
    if folder != "" then folder + "/" + filename else filename
  }

  /**
   * The path a download is saved under: the filename under the folder (when
   * set), kept as it is when it already ends in ".png" in any letter case,
   * otherwise with its last extension (as `/\.[^/.]+$/` finds it) replaced by
   * ".png". The folder and its slash always survive.
   */
  function DestinationPath(folder: string, filename: string): (path: string)
    ensures EndsWithPng(path)
    ensures folder != "" ==> StartsWith(path, folder + "/")
    ensures EndsWithPng(InFolder(folder, filename)) ==> path == InFolder(folder, filename)
    ensures !EndsWithPng(InFolder(folder, filename)) ==>
      var joined := InFolder(folder, filename);
      var stem := path[..|path| - 4];
      && path == stem + ".png"
      && |stem| <= |joined| && stem == joined[..|stem|]
      && (ExtensionAt(joined, |stem|) || (stem == joined && forall i :: !ExtensionAt(joined, i)))
  {
    var joined := InFolder(folder, filename);
    if EndsWithPng(joined) then joined
    else
      RenamedToPng(folder, filename);
      StripExtension(joined) + ".png"
  }

  /** Replacing the extension by ".png" gives a ".png" path that keeps the folder and its slash. */
  lemma RenamedToPng(folder: string, filename: string)
    ensures var stem := StripExtension(InFolder(folder, filename));
      var path := stem + ".png";
      && path[..|path| - 4] == stem
      && EndsWithPng(path)
      && (folder != "" ==> StartsWith(path, folder + "/"))
  {
    var stem := StripExtension(InFolder(folder, filename));
    var path := stem + ".png";
    assert path[..|path| - 4] == stem;
    assert path[|path| - 4..] == ".png";
    PngSuffixLowered(path);
    if folder != "" {
      StemKeepsFolder(folder, filename);
      assert path[..|folder| + 1] == stem[..|folder| + 1];
    }
  }

  /** Stripping the extension never reaches into the folder: the folder and its slash stay. */
  lemma StemKeepsFolder(folder: string, filename: string)
    requires folder != ""
    ensures StartsWith(StripExtension(InFolder(folder, filename)), folder + "/")
  {
    var joined := InFolder(folder, filename);
    var stem := StripExtension(joined);
    assert joined[|folder|] == '/';
    assert joined[..|folder| + 1] == folder + "/";
    if |stem| < |joined| {
      assert ExtensionAt(joined, |stem|);
      assert |folder| + 1 <= |stem|;
    }
    assert stem[..|folder| + 1] == joined[..|folder| + 1];
  }

  // ---------------------------------------------------------------------------
  // the drain step as a function

  /** Every item of the queue is already in the history. */
  ghost predicate AllDownloaded(queue: seq<Item>, history: History) {
    forall i :: 0 <= i < |queue| ==> queue[i].src in history
  }

  /** The position of the first item of the queue not yet in the history. */
  function FirstNew(queue: seq<Item>, history: History): (k: nat)
    requires !AllDownloaded(queue, history)
    ensures k < |queue| && queue[k].src !in history
    ensures forall j :: 0 <= j < k ==> queue[j].src in history
  {
    if queue[0].src !in history then 0
    else FirstNew(queue[1..], history) + 1
  }

  /** The state one drain step leaves behind; `complete` says whether it broadcast `downloadComplete`. */
  datatype StepOutcome = StepOutcome(pending: seq<Item>, downloading: bool, complete: bool, issue: Issue)

  /**
   * One run of the drain: stop when the queue is empty or paused (announcing
   * completion only when not paused); otherwise take items from the front,
   * silently dropping those already in the history, and issue the first new
   * one. Paused: nothing changes but the downloading flag. All items already
   * downloaded: the queue empties and completion is announced. Otherwise the
   * first new item is issued, with its destination path, and the queue keeps
   * exactly the items after it.
   */
  function DrainStep(queue: seq<Item>, paused: bool, history: History, folder: string): (o: StepOutcome)
    ensures paused ==> o == StepOutcome(queue, false, false, Stopped)
    ensures !paused && AllDownloaded(queue, history) ==> o == StepOutcome([], false, true, Stopped)
    ensures !paused && !AllDownloaded(queue, history) ==>
      var k := FirstNew(queue, history);
      o == StepOutcome(queue[k + 1..], true, false, Issued(queue[k], DestinationPath(folder, queue[k].filename)))
  {
    if |queue| == 0 || paused then StepOutcome(queue, false, !paused, Stopped)
    else if queue[0].src in history then
      assert !AllDownloaded(queue[1..], history) ==> queue[1..][FirstNew(queue[1..], history) + 1..] == queue[FirstNew(queue, history) + 1..];
      DrainStep(queue[1..], paused, history, folder)
    else StepOutcome(queue[1..], true, false, Issued(queue[0], DestinationPath(folder, queue[0].filename)))
  }

  /** The notification a drain step broadcasts. */
  function CompletionNotice(o: StepOutcome): seq<Event> {
    if o.complete then [DownloadComplete] else []
  }

  /** A download id reported by the platform counts as success when it is present and not 0. */
  predicate Succeeded(downloadId: Option<int>) {
    downloadId.Some? && downloadId.value != 0
  }

  /**
   * The error text of a failed download: the platform's message, else
   * "Unknown error"; an empty message becomes "Failed to download image".
   */
  function FailureText(lastError: Option<string>): (text: string)
    ensures text != ""
    ensures lastError.Some? && lastError.value != "" ==> text == lastError.value
    ensures lastError.None? ==> text == "Unknown error"
    ensures lastError == Some("") ==> text == "Failed to download image"
  {
    var error := if lastError.Some? then lastError.value else "Unknown error";
    if error == "" then "Failed to download image" else error
  }

  /** The error text of a download that could not be set up: the error's message, else "Failed to set up download". */
  function SetupFailureText(message: Option<string>): (text: string)
    ensures text != ""
    ensures message.Some? && message.value != "" ==> text == message.value
    ensures message.None? || message == Some("") ==> text == "Failed to set up download"
  {
    if message.Some? && message.value != "" then message.value else "Failed to set up download"
  }

  // ---------------------------------------------------------------------------
  // the coordinator

  class Coordinator {
    var history: History
    var pending: seq<Item>
    var saved: seq<Item>
    var downloading: bool
    var paused: bool
    var folder: string
    ghost var events: seq<Event>

    /**
     * The coordinator's invariant: a saved queue exists only while paused,
     * the pending and saved queues are never both non-empty, and a paused
     * coordinator is not downloading.
     */
    ghost predicate Valid()
      reads this
    {
      && (saved != [] ==> paused)
      && (pending == [] || saved == [])
      && (downloading ==> !paused)
    }

    constructor ()
      ensures Valid()
      ensures history == map[] && pending == [] && saved == [] && folder == ""
      ensures !downloading && !paused && events == []
    {
      history := map[];
      pending := [];
      saved := [];
      downloading := false;
      paused := false;
      folder := "";
      events := [];
    }

    /** Start-up: adopt the stored history when there is one and the stored folder when it is non-empty. */
    method RestoreFromStorage(storedHistory: Option<History>, storedFolder: Option<string>)
      requires Valid()
      modifies this`history, this`folder
      ensures Valid()
      ensures history == storedHistory.GetOr(old(history))
      ensures folder == if storedFolder.Some? && storedFolder.value != "" then storedFolder.value else old(folder)
    {
      if storedHistory.Some? {
        history := storedHistory.value;
      }
      if storedFolder.Some? && storedFolder.value != "" {
        folder := storedFolder.value;
      }
    }

    /** `historyCleared`: forget every download. */
    method HistoryCleared()
      requires Valid()
      modifies this`history
      ensures Valid() && history == map[]
    {
      history := map[];
    }

    /** `historyImported`: adopt the merged history sent by the history page. */
    method HistoryImported(merged: History)
      requires Valid()
      modifies this`history
      ensures Valid() && history == merged
    {
      history := merged;
    }

    /** `getDownloadedImages`: the history as it stands. */
    function DownloadedImages(): (h: History)
      reads this
      ensures forall src :: src in h <==> src in history
      ensures forall src :: src in h ==> h[src] == history[src]
    {
      history
    }

    /**
     * `getDownloadStatus`. On a valid coordinator the reply is consistent:
     * a paused queue exists only while paused and with nothing pending, and
     * the coordinator is never both downloading and paused.
     */
    function GetStatus(): (s: Status)
      reads this
      requires Valid()
      ensures s.pausedQueueLength > 0 ==> s.isPaused && s.queueLength == 0
      ensures s.isDownloading ==> !s.isPaused
      ensures s.queueLength == |pending| && s.pausedQueueLength == |saved|
      ensures s.isDownloading == downloading && s.isPaused == paused
    {
      Status(downloading, paused, |pending|, |saved|)
    }

    /** `setDownloadFolder`. */
    method SetFolder(name: string)
      requires Valid()
      modifies this`folder
      ensures Valid() && folder == name
    {
      folder := name;
    }

    /** `getDownloadFolder`: reload the folder from storage, empty when none is stored. */
    method GetFolder(stored: Option<string>) returns (name: string)
      requires Valid()
      modifies this`folder
      ensures Valid() && folder == stored.GetOr("") && name == folder
    {
      folder := stored.GetOr("");
      name := folder;
    }

    /**
     * `processDownloadQueue`: one drain step. Items already in the history
     * are dropped without a download and without a notification; the step
     * ends with the first new item issued, or with the drain stopped.
     */
    method Step() returns (issue: Issue)
      requires Valid()
      modifies this`pending, this`downloading, this`events
      ensures Valid()
      ensures var o := DrainStep(old(pending), paused, history, folder);
        && pending == o.pending
        && downloading == o.downloading
        && issue == o.issue
        && events == old(events) + CompletionNotice(o)
    {
      while true
        invariant DrainStep(pending, paused, history, folder) == DrainStep(old(pending), paused, history, folder)
        invariant events == old(events)
        decreases |pending|
      {
        if |pending| == 0 || paused {
          downloading := false;
          if !paused {
            events := events + [DownloadComplete];
          }
          return Stopped;
        }
        downloading := true;
        var image := pending[0];
        pending := pending[1..];
        if image.src !in history {
          return Issued(image, DestinationPath(folder, image.filename));
        }
      }
    }

    /**
     * `handleDownloadComplete`: record a successful download of `image` (only
     * its own history entry changes) or report the failure, with the number
     * of items still pending; then continue the drain unless paused, in which
     * case downloading stops.
     */
    method Complete(image: Item, downloadId: Option<int>, now: int, lastError: Option<string>)
      returns (continueDrain: bool)
      requires Valid()
      modifies this`history, this`downloading, this`events
      ensures Valid()
      ensures Succeeded(downloadId) ==>
        && history == old(history)[image.src := Record(now, image.filename, FolderLabel(folder))]
        && events == old(events) + [ImageDownloaded(image, |pending|)]
      ensures !Succeeded(downloadId) ==>
        && history == old(history)
        && events == old(events) + [ImageDownloadFailed(image, FailureText(lastError), |pending|)]
      ensures continueDrain == !paused
      ensures downloading == (old(downloading) && !paused)
    {
      if Succeeded(downloadId) {
        history := history[image.src := Record(now, image.filename, FolderLabel(folder))];
        events := events + [ImageDownloaded(image, |pending|)];
      } else {
        events := events + [ImageDownloadFailed(image, FailureText(lastError), |pending|)];
      }
      if !paused {
        continueDrain := true;
      } else {
        continueDrain := false;
        downloading := false;
      }
    }

    /**
     * The `catch` path of `processDownloadQueue`: a download that could not
     * be set up is reported as failed with the number of items still
     * pending, the history is untouched, and the drain continues unless
     * paused, in which case downloading stops.
     */
    method SetupFailed(image: Item, message: Option<string>) returns (continueDrain: bool)
      requires Valid()
      modifies this`downloading, this`events
      ensures Valid()
      ensures events == old(events) + [ImageDownloadFailed(image, SetupFailureText(message), |pending|)]
      ensures continueDrain == !paused
      ensures downloading == (old(downloading) && !paused)
    {
      events := events + [ImageDownloadFailed(image, SetupFailureText(message), |pending|)];
      if !paused {
        continueDrain := true;
      } else {
        continueDrain := false;
        downloading := false;
      }
    }

    /**
     * `downloadImages`: set the folder; a paused coordinator with a saved
     * queue takes the saved queue back (and drops the submitted list),
     * otherwise the submitted list becomes the pending queue. A drain step
     * runs when that queue is non-empty and no download is in progress.
     * The reply counts what is pending after that step.
     */
    method Submit(images: Option<seq<Item>>, folderName: Option<string>) returns (queueLength: nat, issue: Issue)
      requires Valid()
      modifies this`folder, this`pending, this`saved, this`paused, this`downloading, this`events
      ensures Valid()
      ensures folder == folderName.GetOr("")
      ensures saved == []
      ensures var resumed := old(paused) && old(saved) != [];
        var queue := if resumed then old(saved) else images.GetOr([]);
        && paused == (old(paused) && !resumed)
        && if queue != [] && !old(downloading) then
             var o := DrainStep(queue, paused, history, folder);
             && pending == o.pending
             && downloading == o.downloading
             && issue == o.issue
             && events == old(events) + CompletionNotice(o)
           else
             && pending == queue
             && downloading == old(downloading)
             && issue == Stopped
             && events == old(events)
      ensures queueLength == |pending|
    {
      folder := folderName.GetOr("");
      if paused && |saved| > 0 {
        pending := saved;
        saved := [];
        paused := false;
      } else {
        pending := images.GetOr([]);
      }
      issue := Stopped;
      if |pending| > 0 && !downloading {
        issue := Step();
      }
      queueLength := |pending|;
    }

    /**
     * `pauseDownload`: accepted exactly when downloading; the pending queue
     * moves to the saved queue and the reply and notification carry its
     * length. Refused, nothing changes.
     */
    method Pause() returns (reply: Reply)
      requires Valid()
      modifies this`pending, this`saved, this`paused, this`downloading, this`events
      ensures Valid()
      ensures old(downloading) ==>
        && saved == old(pending) && pending == []
        && paused && !downloading
        && reply == Accepted(|saved|)
        && events == old(events) + [DownloadPaused(|saved|)]
      ensures !old(downloading) ==>
        && reply == Refused("No active download to pause")
        && pending == old(pending) && saved == old(saved)
        && paused == old(paused) && downloading == old(downloading)
        && events == old(events)
    {
      if downloading {
        paused := true;
        saved := pending;
        pending := [];
        downloading := false;
        events := events + [DownloadPaused(|saved|)];
        reply := Accepted(|saved|);
      } else {
        reply := Refused("No active download to pause");
      }
    }

    /**
     * `resumeDownload`: accepted exactly when paused with a saved queue; the
     * saved queue becomes the pending queue and a drain step runs. The reply
     * counts what is pending after that step. Refused, nothing changes.
     */
    method Resume() returns (reply: Reply, issue: Issue)
      requires Valid()
      modifies this`pending, this`saved, this`paused, this`downloading, this`events
      ensures Valid()
      ensures old(paused) && old(saved) != [] ==>
        var o := DrainStep(old(saved), false, history, folder);
        && saved == [] && !paused
        && pending == o.pending
        && downloading == o.downloading
        && issue == o.issue
        && events == old(events) + CompletionNotice(o)
        && reply == Accepted(|pending|)
      ensures !(old(paused) && old(saved) != []) ==>
        && reply == Refused("No paused download to resume")
        && issue == Stopped
        && pending == old(pending) && saved == old(saved)
        && paused == old(paused) && downloading == old(downloading)
        && events == old(events)
    {
      issue := Stopped;
      if paused && |saved| > 0 {
        paused := false;
        pending := saved;
        saved := [];
        if !downloading {
          issue := Step();
        }
        reply := Accepted(|pending|);
      } else {
        reply := Refused("No paused download to resume");
      }
    }

    /**
     * `cancelDownload`: always accepted; reports the pending items plus, when
     * paused, the saved ones, and leaves both queues empty and both flags clear.
     */
    method Cancel() returns (cancelled: nat)
      requires Valid()
      modifies this`pending, this`saved, this`paused, this`downloading, this`events
      ensures Valid()
      ensures cancelled == |old(pending)| + if old(paused) then |old(saved)| else 0
      ensures pending == [] && saved == [] && !downloading && !paused
      ensures events == old(events) + [DownloadCancelled(cancelled)]
    {
      cancelled := |pending| + if paused then |saved| else 0;
      pending := [];
      saved := [];
      downloading := false;
      paused := false;
      events := events + [DownloadCancelled(cancelled)];
    }
  }
}
