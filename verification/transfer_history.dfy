/**
 * The transfer history panel: a list of past transfers, a per-row
 * "Remove from history" action, a Clear History button, a status badge and
 * an "Open file" action for completed downloads.
 */
module TransferHistory {
  import Lists
  import opened Ui

  datatype Direction = Sent | Received
  datatype TransferStatus = Completed | Failed | Cancelled

  datatype Transfer = Transfer(
    id: string, filename: string, size: string, date: string, device: string,
    direction: Direction, status: TransferStatus)

  function TransferId(t: Transfer): string {
    t.id
  }

  function StatusBadge(s: TransferStatus): (v: BadgeVariant)
    ensures v != Secondary
  {
    match s
    case Completed => Default
    case Failed => Destructive
    case Cancelled => Outline
  }

  /** Each status shows its own badge. */
  lemma StatusBadgeDistinct(s: TransferStatus, t: TransferStatus)
    ensures StatusBadge(s) == StatusBadge(t) <==> s == t
  {
  }

  /** Whether the row's menu offers "Open file". */
  function CanOpenFile(t: Transfer): (offered: bool)
    ensures offered <==> t.status == Completed && t.direction == Received
  {
    match (t.status, t.direction)
    case (Completed, Received) => true
    case _ => false
  }

  const INITIAL_TRANSFERS: seq<Transfer> := [
    Transfer("1", "presentation.pptx", "4.2 MB", "Today, 2:30 PM", "MacBook Pro", Sent, Completed),
    Transfer("2", "vacation-photos.zip", "128 MB", "Today, 11:15 AM", "iPhone 13", Received, Completed),
    Transfer("3", "project-report.pdf", "2.8 MB", "Yesterday, 4:45 PM", "Windows PC", Sent, Completed),
    Transfer("4", "design-mockups.sketch", "18.5 MB", "Yesterday, 2:10 PM", "MacBook Pro", Sent, Failed),
    Transfer("5", "meeting-notes.docx", "1.2 MB", "Apr 2, 2023", "Android Tablet", Received, Cancelled)
  ]

  /** Of the sample history only the completed download can be opened. */
  lemma InitialOpenable()
    ensures forall i | 0 <= i < |INITIAL_TRANSFERS| :: CanOpenFile(INITIAL_TRANSFERS[i]) <==> i == 1
  {
  }

  /** The component's state: the history list. */
  class HistoryState {
    var transfers: seq<Transfer>

    constructor()
      ensures transfers == INITIAL_TRANSFERS
    {
      transfers := INITIAL_TRANSFERS;
    }

    /** `deleteTransfer`: keep every entry whose id differs, in order. */
    method DeleteTransfer(id: string)
      modifies this
      ensures transfers == Lists.RemoveKey(old(transfers), TransferId, id)
      ensures forall t :: t in transfers <==> t in old(transfers) && t.id != id
    {
      transfers := Lists.RemoveKey(transfers, TransferId, id);
    }

    /** `clearHistory`. */
    method ClearHistory()
      modifies this
      ensures transfers == []
    {
      transfers := [];
    }

    /** The Clear History button is enabled only while there is something to clear. */
    function ClearEnabled(): (enabled: bool)
      reads this
      ensures enabled <==> |transfers| > 0
    {
      transfers != []
    }
  }
}
