/**
 * Values shared by the background coordinator, the page script and the
 * history page: the selected image as it travels between them, and one
 * entry of the download history.
 */
module Types {

  /** A value that may be absent: a missing message field or storage key. */
  datatype Option<+T> = None | Some(value: T) {
    /** The value, or `default` when absent (JavaScript's `x || default` on an object-valued field). */
    function GetOr(default: T): T {
      match this
      case Some(v) => v
      case None => default
    }
  }

  /**
   * A selected image. `src` is the URL chosen for download (the history key),
   * `originalSrc` the element's own `src`. A single click records whether the
   * image was already downloaded; select-all leaves `isDownloaded` out.
   */
  datatype Item = Item(
    src: string,
    filename: string,
    width: int,
    height: int,
    originalSrc: string,
    isDownloaded: Option<bool>)

  /**
   * The reply to a request that can be refused (pause, resume, select-all):
   * accepted with a count, or refused with the message shown to the user.
   */
  datatype Reply = Accepted(count: nat) | Refused(message: string)

  /** One download-history entry, stored under the image's `src`. */
  datatype Record = Record(timestamp: int, filename: string, folder: string)

  /** The download history: image src to the record of its last successful download. */
  type History = map<string, Record>

  /** The folder name recorded and shown when no folder was chosen. */
  const DefaultFolder: string := "Default Directory"

  /** `folder || 'Default Directory'`: an empty folder name stands for the default one. */
  function FolderLabel(folder: string): (name: string)
    ensures name != ""
    ensures folder != "" ==> name == folder
    ensures folder == "" ==> name == DefaultFolder
  {
    if folder == "" then DefaultFolder else folder
  }
}
