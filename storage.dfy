/**
 * What a persisted artefact (a FAISS index file, a pickled id list) looks like
 * to the code that loads it: absent, present but unreadable, or readable.
 */
module Storage {
  datatype FileState<+T> = Absent | Corrupt | Stored(content: T)
}
