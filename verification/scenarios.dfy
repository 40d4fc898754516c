/**
 * Whole-request properties of the two registered handlers, error reporter
 * included: what the person and the administrator receive in each case.
 */
module Scenarios {
  import Geometry
  import Messages
  import Report
  import opened Handlers

  /**
   * An over-long photo is refused as too large even when it is also too thin,
   * and no file is sent or removed for it.
   */
  lemma OversizedWins(p: Platform, w: nat, h: nat)
    requires p.download.Downloaded? && p.picture == Decoded(w, h)
    requires Geometry.Max(w, h) > Geometry.MaxSide
    ensures ImageFlow(p).actions == [SendText(Sender, Messages.TooLargeText(w, h))]
    ensures StartFlow(p).actions[0] == SendText(Sender, Messages.TooLargeText(w, h))
    ensures SendFile(p.download.path) !in StartFlow(p).actions
    ensures Delete(p.download.path) !in StartFlow(p).actions
  {
  }

  /** The worked case of a 5000 × 5 photo: too large, not too small. */
  lemma OversizedThinExample(p: Platform)
    requires p.download.Downloaded? && p.picture == Decoded(5000, 5)
    ensures ImageFlow(p).actions == [SendText(Sender, Messages.TooLargeText(5000, 5))]
  {
    OversizedWins(p, 5000, 5);
  }

  /** A greeting from someone without an avatar yields exactly the hint and no file. */
  lemma NoAvatarGreeting(p: Platform, d: Diagnostics)
    requires p.download.NothingToDownload?
    requires !Fails(p.deliver(SendText(Sender, Messages.Hint)))
    ensures HandleStart(p, d) == Trace([SendText(Sender, Messages.Hint)], Returned)
  {
  }

  /** A photo message with nothing to download yields exactly the "no photo" text and no file. */
  lemma NoPhotoMessage(p: Platform, d: Diagnostics)
    requires p.download.NothingToDownload?
    requires !Fails(p.deliver(SendText(Sender, Messages.NoPhoto)))
    ensures HandleImage(p, d) == Trace([SendText(Sender, Messages.NoPhoto)], Returned)
  {
  }

  /**
   * An accepted photo whose stamped version cannot be saved is an unexpected
   * error: nothing reaches the person before it, the administrator gets the
   * report on that failure, and the handler raises.
   */
  lemma SaveFailureReported(p: Platform, d: Diagnostics)
    requires p.download.Downloaded? && p.picture.Decoded?
    requires Geometry.Layout(p.picture.width, p.picture.height).Place?
    requires p.storage.StoreFailed?
    ensures var f := Failure(p.storage.error);
      HandleImage(p, d).actions[0] == SendText(Admin, Report.AdminReport(d.describe(f), d.traceback(f), d.event))
    ensures HandleImage(p, d).exit.Raised? && ReachesAdmin(HandleImage(p, d).actions)
    ensures HandleStart(p, d).exit.Raised? && ReachesAdmin(HandleStart(p, d).actions)
    ensures SendFile(p.download.path) !in HandleImage(p, d).actions
  {
  }

  /**
   * When downloading, decoding and saving work and no send fails for a reason
   * other than an unreachable person, both handlers return normally and the
   * administrator hears nothing: refused sizes and blocked or deleted
   * accounts are expected outcomes, not errors.
   */
  lemma ExpectedOutcomesStayQuiet(p: Platform, d: Diagnostics)
    requires !p.download.DownloadFailed? && p.picture.Decoded? && p.storage.Stored?
    requires forall a :: !Fails(p.deliver(a))
    ensures HandleStart(p, d).exit.Returned? && !ReachesAdmin(HandleStart(p, d).actions)
    ensures HandleImage(p, d).exit.Returned? && !ReachesAdmin(HandleImage(p, d).actions)
  {
  }
}
