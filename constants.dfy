/** The video-processing constants of the application (util/constants.py). */
module Constants {

  /** Length of one transcript window, in seconds. */
  const VIDEO_SEGMENT_LENGTH: int := 60

  /** Seconds added before and after a selected window. */
  const CLIP_PADDING: int := 10

  /** Shortest clip the moviepy extractor keeps room for before the end of the video. */
  const MIN_CLIP_LENGTH: int := 10
}
