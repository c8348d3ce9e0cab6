/**
 * Sequences of coordinator requests that show how the message branches and
 * the drain interact when a pause, resume or cancel arrives between a
 * download being issued and its completion.
 */
module Scenarios {
  import opened Types
  import opened Background

  /**
   * Pausing while the drain is running but nothing is left pending leaves
   * the coordinator paused with an empty saved queue; a later submit then
   * keeps it paused, so the new list stays pending, no download is issued
   * and no completion is announced.
   */
  method PauseWithEmptyQueueThenSubmit(c: Coordinator, images: seq<Item>, folderName: Option<string>)
      returns (queueLength: nat, issue: Issue)
    requires c.Valid() && c.downloading && c.pending == []
    modifies c
    ensures c.Valid()
    ensures c.paused && !c.downloading && c.saved == []
    ensures c.pending == images && queueLength == |images| && issue == Stopped
    ensures c.events == old(c.events) + [DownloadPaused(0)]
  {
    var reply := c.Pause();
    queueLength, issue := c.Submit(Some(images), folderName);
  }

  /**
   * A submit while paused with a saved queue drains the saved queue and
   * drops the submitted list: what is pending afterwards does not depend on
   * the list submitted.
   */
  method SubmitWhilePaused(c: Coordinator, images: seq<Item>, folderName: Option<string>)
      returns (queueLength: nat, issue: Issue)
    requires c.Valid() && c.paused && c.saved != []
    modifies c
    ensures c.Valid() && !c.paused && c.saved == []
    ensures var o := DrainStep(old(c.saved), false, c.history, c.folder);
      c.pending == o.pending && issue == o.issue
  {
    queueLength, issue := c.Submit(Some(images), folderName);
  }

  /**
   * Pause, then resume: the drain carries on with exactly the queue the
   * pause saved.
   */
  method PauseThenResume(c: Coordinator) returns (issue: Issue)
    requires c.Valid() && c.downloading && c.pending != []
    modifies c
    ensures c.Valid() && !c.paused && c.saved == []
    ensures var o := DrainStep(old(c.pending), false, c.history, c.folder);
      c.pending == o.pending && c.downloading == o.downloading && issue == o.issue
  {
    var paused := c.Pause();
    var resumed: Reply;
    resumed, issue := c.Resume();
  }

  /**
   * A download that completes after a cancel is still recorded in the
   * history and the drain is still rescheduled; that drain step finds the
   * queue empty and announces completion.
   */
  method CompletionAfterCancel(c: Coordinator, image: Item, downloadId: int, now: int)
      returns (cancelled: nat, continueDrain: bool, issue: Issue)
    requires c.Valid() && downloadId != 0
    modifies c
    ensures c.Valid()
    ensures image.src in c.history && c.history[image.src] == Record(now, image.filename, FolderLabel(c.folder))
    ensures continueDrain && issue == Stopped && c.pending == [] && !c.downloading
    ensures c.events == old(c.events) + [DownloadCancelled(cancelled), ImageDownloaded(image, 0), DownloadComplete]
  {
    cancelled := c.Cancel();
    continueDrain := c.Complete(image, Some(downloadId), now, None);
    issue := c.Step();
  }
}
