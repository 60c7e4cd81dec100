# SimMovieMaker in Dafny

SimMovieMaker is a desktop tool that turns an ordered list of image files into a
video. It has a Tk window and a command-line entry point. This project models the
core of `SimMovieMaker.py`:

- the **frame list**: the list of image paths, the selected positions and the
  current preview index. Images are imported, selected, deleted, moved and
  navigated. This is the class `Frames.SimMovieMaker`, whose imperative methods
  are proved equal to the pure transition functions on `Frames.ListState`;
- the **pattern rewrite** that `import_sequence` applies before matching file
  names (`GlobPattern`);
- the **fourcc table** that picks the video codec code from the output format
  and the requested codec (`Codec`). Its two copies, in the GUI and on the
  command line, are proved to agree;
- **frame assembly** (`Assembly`): the preview, video and command-line loops
  that decode every frame and hand it to the video writer. The command line
  checks each decoded image and skips unreadable ones. The GUI loops hand
  `imread`'s result to `out.write` unchecked, so an unreadable file reaches the
  writer as `None`. Whether that write raises depends on the video backend, not
  on this program, so it is a parameter (`noneRaises`), and both outcomes are
  proved. If it raises, the GUI stops at the first unreadable file. If it does
  not, the GUI writes exactly the frames the command line writes.

External collaborators are parameters:
- the image decoder is `cv2.imread`, a function `string -> Option<Image>`;
- the video writer is a value that records how it was opened, the frames written
  to it and whether it was released;
- `re.match` is a predicate `(regex, name) -> bool`;
- the directory listing, the dialog answers (file paths, the pattern, the preview
  fps, the save path) and the listbox selection are arguments.

Files:
- `wrappers.dfy`: `Option`;
- `glob_pattern.dfy`: module `GlobPattern`;
- `codec.dfy`: module `Codec`;
- `frames.dfy`: module `Frames`;
- `assembly.dfy`: module `Assembly`.

## Model

| member | source | states |
|---|---|---|
| GlobPattern.ReplaceChar | SimMovieMaker.py:351 | `str.replace` of one character: the result holds only characters of the input other than the replaced one, and characters of the replacement. |
| GlobPattern.ReplaceCharLength | SimMovieMaker.py:351 | Each occurrence of the replaced character changes the length by the replacement's length minus one. |
| GlobPattern.GlobToRegex | SimMovieMaker.py:351 | The regex built from the pattern equals the one-pass translation `Translate`: `.` becomes `\.`, `*` becomes `.*`, and every other character is kept. |
| GlobPattern.ChainedReplaceIsTranslate | SimMovieMaker.py:351 | Proof for `GlobToRegex`: the two chained `replace` calls equal the one-character-at-a-time translation. |
| GlobPattern.TranslateLength | SimMovieMaker.py:351 | The translation is as long as the pattern plus one character per `.` and per `*`. |
| GlobPattern.GlobToRegexLength | SimMovieMaker.py:351 | The same length law holds for the regex that `import_sequence` builds. |
| GlobPattern.GlobToRegexPlain | SimMovieMaker.py:351 | A pattern with no `.` and no `*` reaches `re.match` unchanged. |
| GlobPattern.ReplaceCharConcat | SimMovieMaker.py:351 | `str.replace` of one character distributes over concatenation. |
| GlobPattern.ReplaceCharAbsent | SimMovieMaker.py:351 | Replacing a character that does not occur leaves the string unchanged. |
| Codec.GuiFourcc | SimMovieMaker.py:800-810 | The result is MJPG exactly for avi with MJPG requested, XVID exactly for avi with any other codec, and mp4v exactly when the format is not avi. |
| Codec.CliFourcc | SimMovieMaker.py:1131-1141 | The command-line table returns the same code as the GUI table for every format and codec. |
| Frames.AppendNew | SimMovieMaker.py:314-317 | Appending only absent paths keeps the old list as a prefix. The result holds exactly the old files and the new paths. A duplicate-free list stays duplicate-free. |
| Frames.AppendNewFirstSeenOrder | SimMovieMaker.py:314-317 | Every appended entry was absent before and is one of the imported paths. Appended entries follow the order of their first occurrence in the imported paths. |
| Frames.AppendNewSnoc | SimMovieMaker.py:314-317 | One loop step: the next path is appended unless it is already present. |
| Frames.AppendNewConcat | SimMovieMaker.py:314-317 | Two imports in a row give the same list as one import of both path lists. |
| Frames.RemoveAt | SimMovieMaker.py:394 | `del s[i]`: the list is one shorter, entries before `i` stay where they were, and entries after `i` move down one position. |
| Frames.Exclude | SimMovieMaker.py:393-394 | Reference definition of deletion by position: the result is never longer than the input. |
| Frames.ExcludeKeepsPrefix | SimMovieMaker.py:393-394 | Deleting positions at or beyond `m` leaves the first `m` entries in place. |
| Frames.ExcludeThenRemove | SimMovieMaker.py:393-394 | Suppose every position already deleted is greater than `i`. Then `del s[i]` on the result equals deleting position `i` along with them. This is why the indices are deleted largest first. |
| Frames.ExcludeSources | SimMovieMaker.py:393-394 | Every surviving entry is the entry of some position that was not deleted. |
| Frames.ExcludeKept | SimMovieMaker.py:393-394 | The entry of every position not deleted survives. |
| Frames.ExcludeLast | SimMovieMaker.py:393-394 | When every deleted position lies beyond the end of the list, the list is unchanged. Deleting the last position as well then drops only that entry. |
| Frames.ExcludeLength | SimMovieMaker.py:393-394 | The list shrinks by exactly the number of deleted positions that lie in range. |
| Frames.ExcludeNoDuplicates | SimMovieMaker.py:393-394 | Deleting positions keeps a duplicate-free list duplicate-free. |
| Frames.InsertDescending | SimMovieMaker.py:390 | Inserting into a non-increasing list gives a non-increasing list with the same multiset plus the new value. |
| Frames.SortDescending | SimMovieMaker.py:390 | `sorted(..., reverse=True)` gives a non-increasing list with the same multiset of values. |
| Frames.SortDescendingDistinct | SimMovieMaker.py:390 | Sorting keeps distinct indices distinct. |
| Frames.DeletionOrder | SimMovieMaker.py:389-394 | The sorted selection is non-increasing, distinct and in range, with the same set of positions as the selection. |
| Frames.DeleteStep | SimMovieMaker.py:393-394 | One loop step of `del` extends the deleted set by the next index. |
| Frames.Delete | SimMovieMaker.py:385-407 | Transition function of `delete_selected`, with no contract of its own. Its properties are `DeleteEffect` and `DeleteKeepsWellFormed`. |
| Frames.DeleteEffect | SimMovieMaker.py:385-407 | An empty selection changes nothing. Otherwise the list loses exactly the selected positions: a file survives iff its position was unselected, and the length drops by the selection size. The selection is cleared. The preview becomes min(old, len-1), or 0 for an empty list. |
| Frames.DeleteKeepsWellFormed | SimMovieMaker.py:385-407 | Deleting the selection keeps the invariant `WellFormed`. |
| Frames.Move | SimMovieMaker.py:409-436 | Transition function of `move_selected`, with no contract of its own. Its properties are `MoveEffect` and `MoveBackRestores`. |
| Frames.MoveEffect | SimMovieMaker.py:409-436 | A move is impossible without exactly one selected item and an in-range target; then nothing changes. Otherwise exactly the two positions swap and the multiset and all other positions are unchanged. The target becomes the selection, and the preview follows the moved item. The invariant is kept. |
| Frames.SwapNoDuplicates | SimMovieMaker.py:421-422 | Swapping two positions keeps a duplicate-free list duplicate-free. |
| Frames.MoveBackRestores | SimMovieMaker.py:409-436 | Moving back in the opposite direction restores the list and the selection. It also restores the preview unless the preview was the target. |
| Frames.Navigate | SimMovieMaker.py:444-466 | Transition function of the four `preview_*` handlers, with no contract of its own. Its properties are `NavigateInRange` and `NextThenPrevious`. |
| Frames.NavigateInRange | SimMovieMaker.py:444-466 | On an empty list, navigation changes nothing. Otherwise only the preview index changes, and it stays in range. First goes to 0 and Last goes to len-1. |
| Frames.NextThenPrevious | SimMovieMaker.py:450-460 | Away from the last frame, Next then Previous returns to the same state. |
| Frames.Select | SimMovieMaker.py:1056-1062 | Transition function of `on_file_select`, with no contract of its own. Its properties are `SelectEffect`. |
| Frames.SelectEffect | SimMovieMaker.py:1056-1062 | Only the selection changes. A single selected item becomes the preview, and otherwise the preview is unchanged. The invariant is kept. |
| Frames.JoinPath | SimMovieMaker.py:365 | POSIX `os.path.join(directory, name)` ends with `name`. |
| Frames.JoinAllSnoc | SimMovieMaker.py:364-365 | One loop step: joining one more name adds its full path at the end. |
| Frames.Matching | SimMovieMaker.py:357 | A name is kept iff it is in the listing and matches the regex. The result is no longer than the listing. |
| Frames.MatchingConcat | SimMovieMaker.py:357 | The filter distributes over concatenation, so the kept names come in listing order, each as often as it is listed. This order is the order in which `import_sequence` appends frames. |
| Frames.SimMovieMaker.constructor | SimMovieMaker.py:24-26 | The application starts with no files, no selection and preview index 0. |
| Frames.SimMovieMaker.ImportImages | SimMovieMaker.py:302-326 | The loop appends absent paths (`AppendNew`). The preview index resets to 0 exactly when the list then has as many entries as paths were chosen. An empty choice changes nothing. The selection is unchanged. |
| Frames.SimMovieMaker.ImportSequence | SimMovieMaker.py:328-374 | An empty directory or pattern changes nothing. Otherwise the loop appends directory-joined names from the listing that match the rewritten pattern, skipping paths already present. Selection and preview are unchanged. |
| Frames.SimMovieMaker.AppendJoined | SimMovieMaker.py:364-368 | The loop appends each directory-joined name that is not already present, which is `AppendNew` of the joined names. |
| Frames.SimMovieMaker.SelectAll | SimMovieMaker.py:377-379 | The selection becomes every position in order. Files and preview are unchanged. |
| Frames.SimMovieMaker.DeselectAll | SimMovieMaker.py:381-383 | Only the selection changes, and it becomes empty. |
| Frames.SimMovieMaker.DeleteSelected | SimMovieMaker.py:385-407 | The new state is `Delete(old state)` and the invariant is kept. |
| Frames.SimMovieMaker.DeleteInOrder | SimMovieMaker.py:393-394 | Deleting non-increasing distinct indices one `del` at a time removes exactly those positions. |
| Frames.SimMovieMaker.MoveSelected | SimMovieMaker.py:409-436 | The new state is `Move(old state, direction)` and the invariant is kept. |
| Frames.SimMovieMaker.PreviewFirst | SimMovieMaker.py:444-448 | The new state is `Navigate(old state, First)`. |
| Frames.SimMovieMaker.PreviewPrevious | SimMovieMaker.py:450-454 | The new state is `Navigate(old state, Previous)`. |
| Frames.SimMovieMaker.PreviewNext | SimMovieMaker.py:456-460 | The new state is `Navigate(old state, Next)`. |
| Frames.SimMovieMaker.PreviewLast | SimMovieMaker.py:462-466 | The new state is `Navigate(old state, Last)`. |
| Frames.SimMovieMaker.OnFileSelect | SimMovieMaker.py:1056-1062 | The new state is `Select(old state, selection)` and the invariant is kept. |
| Assembly.TicksIncrease | SimMovieMaker.py:678-680 | Progress values increase strictly and end at the frame count. |
| Assembly.Open | SimMovieMaker.py:813-815 | `cv2.VideoWriter(path, fourcc, fps, (width, height))` as a value, with no contract of its own. |
| Assembly.Writer.Write | SimMovieMaker.py:823 | `out.write(img)` for a decoded image appends it, with no contract of its own. |
| Assembly.Writer.Release | SimMovieMaker.py:825 | `out.release()` marks the writer released, with no contract of its own. |
| Assembly.FirstUnreadable | SimMovieMaker.py:817-823 | Every file before the returned index decodes. The file at that index, if any, does not. This is where the GUI encode stops when `write(None)` raises. |
| Assembly.PrefixIsReadable | SimMovieMaker.py:817-823 | When every file decodes, writing the readable prefix and writing `Readable(files)` give the same frames. So the writer's behaviour on `None` does not matter then. |
| Assembly.WriteFrames | SimMovieMaker.py:817-823 | The writer's settings are untouched. If `write(None)` raises: the writer holds the decodings of the readable prefix, in order, `ok` holds iff every file decodes, and there is one progress tick per attempted frame. If it does not raise: `ok`, the writer holds `Readable(files)`, and there is one tick per file. |
| Assembly.EncodeAll | SimMovieMaker.py:817-825 | If `write(None)` raises: Completed and released when every frame decodes, otherwise Failed with the prefix written and the writer never released. If it does not raise: always Completed and released, holding `Readable(files)`. |
| Assembly.CreateVideo | SimMovieMaker.py:752-825 | Fewer than 2 files: Refused. Cancelled save dialog: Dismissed. Unreadable first image: Failed with no writer. Otherwise the writer is opened at the chosen path with the GUI fourcc, the configured fps and the first image's size, and the worker outcome follows for the given writer behaviour. |
| Assembly.CreatePreview | SimMovieMaker.py:564-686 | The fps comes from the dialog, which accepts only 1 to 60. Fewer than 2 files: Refused. Cancelled fps dialog: Dismissed. Unreadable first image: Failed. Otherwise the first min(100, n) files are encoded with mp4v at the chosen fps into the temporary path. |
| Assembly.PreviewCount | SimMovieMaker.py:643 | The preview frame count is n when n <= 100, and 100 otherwise, so it is at least 2 whenever a preview is made. |
| Assembly.Readable | SimMovieMaker.py:1147-1155 | The command-line frames (readable inputs in input order) are never more than the inputs. |
| Assembly.Unreadable | SimMovieMaker.py:1151-1153 | The number of unreadable inputs is at most the input count, and it is zero iff every input decodes. `CliMode` proves that its skip-warning count equals it. |
| Assembly.ReadableCount | SimMovieMaker.py:1147-1155 | Each input is either written or skipped: written plus skipped equals the input count. |
| Assembly.ReadableConcat | SimMovieMaker.py:1147-1155 | The frames of a concatenation are the frames of each part, in order. |
| Assembly.ReadableMembers | SimMovieMaker.py:1147-1155 | Every written frame is the decoding of some input. Every readable input's decoding is written. |
| Assembly.ReadableAll | SimMovieMaker.py:1147-1155 | When every input decodes, frame i is the decoding of input i. |
| Assembly.CliExtendsGui | SimMovieMaker.py:1147-1155 | On the same inputs, when `write(None)` raises, the command line starts with exactly the frames the GUI writes before it stops, and writes at least as many. |
| Assembly.CliMode | SimMovieMaker.py:1114-1159 | Exit code 1, with no writer, iff there are no inputs or the first is unreadable. Otherwise exit code 0. The writer is opened with the command-line fourcc, the given fps and the first image's size; it receives `Readable(inputs)` and is released. There is one progress line per input. The number of skip warnings is `Unreadable(inputs)`, and written plus skipped frames make up every input. |

## Left out

- The Tk window is not modelled: menus, layout, listbox display text, dialogs and message boxes. Dialog results are parameters.
- `update_preview` and `preview_current` only redraw the canvas, so they are not modelled.
- Threading is not modelled. A worker thread is modelled as running to completion; the progress values are what it posts to the progress bar.
- OpenCV is a parameter, not modelled. Decoding is a function returning `None` for unreadable files. The writer is a value, so what a container does with frames of another size, and writer-open failures, are not captured.
- What `out.write(None)` does in the GUI loops is a parameter (`noneRaises`), because it depends on the video backend. The model does not decide which behaviour a given OpenCV build has. If it raises, the handler reports the error and `release` is skipped. If it returns without writing, nothing else happens.
- Playing the output file (`play_output_file`, `os.startfile`, `open`, `xdg-open`) is left out; it is an external launch.
- Project files and file-list import and export (`new_project`, `open_project`, `save_project`, `export_file_list`, `import_file_list`) are file I/O and not modelled.
- Command-line input resolution is not modelled: argparse, `glob`, directory scan by extension and reading the file list. `CliMode` starts from the resolved input list. Exceptions raised while encoding, which the handler turns into exit code 1, are not modelled beyond the first-image check.
- `re.match` semantics are a parameter. Only the pattern rewrite and the filter are modelled. A rewritten pattern that is not a valid regular expression makes `re.match` raise `re.error` at line 357. A total `isMatch` can only show that as matching nothing.
- `os.path.join` is modelled as POSIX joining of one component. Windows drive and separator rules are not modelled.
- Filters, crop, batch processing, the output-settings dialog, documentation and about dialogs, and the icon patching in `main` are outside the frame-list and assembly core.
- Frames.SimMovieMaker.MoveSelected: `direction` is any integer. The source passes only -1 and +1.
- Frames.WellFormed: this invariant holds only along the modelled operations. `open_project` replaces `image_files` but keeps a stale selection. `import_file_list` replaces the list without the duplicate check, keeps a stale selection, and keeps `current_preview_index` when the imported list is empty. Either can break it. For example, with position 5 selected, opening a project of 2 files and pressing Remove makes `del self.image_files[5]` raise `IndexError`. The equation `State() == Delete(old(State()))` of `DeleteSelected` does not depend on the list being duplicate-free. It needs only a selection of distinct in-range positions.
- The program never checks frame sizes against the first frame. It has no cancellation and no busy state. Each entry point has a fixed way of handling unreadable frames. The GUI skips `release` after an exception. `create_video_thread` iterates over the live `self.image_files` rather than a copy.
