/** Small value types shared by the history store and the generation service. */
module Types {

  /** A lookup that may find nothing (`scalar_one_or_none`, an omitted argument). */
  datatype Option<+T> = None | Some(value: T) {
    /** The wrapped value, or `default` when there is none. */
    function GetOr(default: T): T {
      match this
      case Some(v) => v
      case None => default
    }
  }

  /** One `{"role": ..., "content": ...}` entry of a conversation, as handed to
      and returned by the history store and the generation service. */
  datatype Turn = Turn(role: string, content: string)
}
