/** Failure-compatible wrappers used in place of Java's `null`, `Optional` and thrown exceptions. */
module Wrappers {

  /** A value that may be absent: Java's `Optional`, or a reference that may be `null`. */
  datatype Option<+T> = None | Some(value: T)

  /** The outcome of an operation that either produces a value or fails with an error code. */
  datatype Result<+R, +E> = Success(value: R) | Failure(error: E)

  /** The error codes the modelled services raise (the `errorCode` of a `BaseException`). */
  datatype ErrorCode =
    | DiaryAnalysisFailed    // DiaryErrorCode.DIARY_ANALYSIS_FAILED
    | UserNotFound           // MAuthErrorCode.USER_NOT_FOUND
    | TodayCommentNotFound   // DiaryErrorCode.TODAY_COMMENT_NOT_FOUND
}
