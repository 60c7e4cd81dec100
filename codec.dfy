/**
 * Codec/container resolution: the fourcc handed to `cv2.VideoWriter_fourcc` for an
 * output format and a requested codec. The decision table appears twice in the
 * program, once in the GUI encoder and once in the command-line entry point; both
 * copies are modelled as written and proved to agree.
 */
module Codec {

  /** Generic MPEG-4 code, used for mp4, mov and every format the table does not name. */
  const Mp4v: string := "mp4v"
  const Mjpg: string := "MJPG"
  const Xvid: string := "XVID"

  /**
   * The table in `create_video_thread`. Its contract states the table by the result:
   * MJPG exactly for avi with MJPG requested, XVID exactly for avi with anything else,
   * mp4v exactly when the format is not avi (mp4, mov, webm or any other string).
   */
  function GuiFourcc(format: string, codec: string): (r: string)
    ensures r == Mjpg <==> format == "avi" && codec == "MJPG"
    ensures r == Xvid <==> format == "avi" && codec != "MJPG"
    ensures r == Mp4v <==> format != "avi"
  {
    if format == "mp4" then Mp4v
    else if format == "avi" then (if codec == "MJPG" then Mjpg else Xvid)
    else if format == "mov" then Mp4v
    else Mp4v
  }

  /** The copy of the table in `cli_mode`; it resolves every pair as the GUI copy does. */
  function CliFourcc(format: string, codec: string): (r: string)
    ensures r == GuiFourcc(format, codec)
  {
    if format == "mp4" then Mp4v
    else if format == "avi" then (if codec == "MJPG" then Mjpg else Xvid)
    else if format == "mov" then Mp4v
    else Mp4v
  }
}
