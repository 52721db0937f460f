/** The srtp_err_status_t values that the modelled functions return, and values that may be missing. */
module Errors {
  datatype Option<+T> = None | Some(value: T)

  datatype Status =
    | Ok
    | BadParam
    | AuthFail
    | CipherFail
    | ReplayFail
    | ReplayOld
    | KeyExpired
    | NoCtx
    | CantCheck
    | ParseErr
    | BadMki
    | PktIdxOld
    | PktIdxAdv
    | BufferSmall
    | Terminus
}
