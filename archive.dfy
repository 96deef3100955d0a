/** The process-then-archive rule shared by the three collector stages: a
    unit that a stage handled successfully is moved from the stage's inbox
    into the inbox's `archive` sub-directory; nothing is ever deleted. */
module Archive {

  /** An inbox directory and its archive sub-directory, by file name. */
  datatype Dirs<F> = Dirs(inbox: map<string, F>, archive: map<string, F>)

  /** `shutil.move(inbox/name, archive/name)`. `ok` is false when the move
      raises IOError, which every stage only logs; the file then stays put,
      as it does when there is no such file to move. A file of the same
      name already in the archive is replaced. */
  function Move<F>(d: Dirs<F>, name: string, ok: bool): (r: Dirs<F>)
    ensures r.inbox.Keys + r.archive.Keys == d.inbox.Keys + d.archive.Keys
    ensures ok && name in d.inbox ==> name !in r.inbox && name in r.archive && r.archive[name] == d.inbox[name]
    ensures !ok || name !in d.inbox ==> r == d
    ensures forall n :: n in d.inbox && n != name ==> n in r.inbox && r.inbox[n] == d.inbox[n]
    ensures forall n :: n in d.archive && n != name ==> n in r.archive && r.archive[n] == d.archive[n]
    ensures forall n :: n in r.inbox ==> n in d.inbox && r.inbox[n] == d.inbox[n]
  {
    if ok && name in d.inbox then Dirs(d.inbox - {name}, d.archive[name := d.inbox[name]]) else d
  }
}
