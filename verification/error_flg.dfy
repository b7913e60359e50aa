/** The converter's error codes and the message printed for each. */
module ErrorFlg {
  import opened Decimal

  /** Rust's `i32`, the type of every error code. */
  type I32 = x: int | -0x8000_0000 <= x < 0x8000_0000

  const ERR_FILE_NOT_FOUND: I32 := 1
  const ERR_CREATE_FILE: I32 := 2
  const ERR_WRITE_FILE: I32 := 3
  const ERR_READ_FILE: I32 := 4
  const ERR_DID_NOT_RUN_RENEW_LOGS: I32 := 101
  const ERR_WRITE_INI_FILE: I32 := 102
  const ERR_FIX_FILE_COPY: I32 := 201
  const ERR_FILE_BACKUP: I32 := 202

  const Codes: set<I32> := {
    ERR_FILE_NOT_FOUND, ERR_CREATE_FILE, ERR_WRITE_FILE, ERR_READ_FILE,
    ERR_DID_NOT_RUN_RENEW_LOGS, ERR_WRITE_INI_FILE, ERR_FIX_FILE_COPY, ERR_FILE_BACKUP
  }

  /** The `match` of `print_err_msg`: a message per known code, "" for any other. */
  function Message(e: I32): (msg: string)
    ensures msg != "" <==> e in Codes
  {
    if e == ERR_FILE_NOT_FOUND then "ファイルが見つかりません"
    else if e == ERR_CREATE_FILE then "ファイル作成に失敗しました"
    else if e == ERR_READ_FILE then "ファイル読み込みに失敗しました"
    else if e == ERR_WRITE_FILE then "ファイル書き込みに失敗しました"
    else if e == ERR_DID_NOT_RUN_RENEW_LOGS then "MicroSIP.ini は更新されませんでした"
    else if e == ERR_WRITE_INI_FILE then "MicroSIP.ini の書き込みに失敗しました"
    else if e == ERR_FIX_FILE_COPY then "作成したファイルの置き換えに失敗しました"
    else if e == ERR_FILE_BACKUP then "ファイルのバックアップに失敗しました"
    else ""
  }

  const UnknownPrefix := "不明なエラーです "

  /** The line `print_err_msg` prints: the code's message, or for an unknown code
      the fallback text followed by the code in decimal. */
  function ErrorLine(e: I32): (line: string)
    ensures e in Codes ==> line == Message(e)
    ensures e !in Codes ==> line == UnknownPrefix + IntToText(e)
  {
    var msg := Message(e);
    if msg != "" then msg else UnknownPrefix + IntToText(e)
  }

  /** The eight codes are pairwise distinct, so each selects its own message. */
  lemma CodesDistinct()
    ensures |Codes| == 8
  {
  }

  /** Distinct codes print distinct messages. */
  lemma MessagesDistinct(e1: I32, e2: I32)
    requires e1 in Codes && e2 in Codes && e1 != e2
    ensures Message(e1) != Message(e2)
  {
  }
}
