# A verified model of CarpinchOS

CarpinchOS simulates an operating system with three programs: a memory server that
pages processes' memory, a swap store, and a kernel. This project models the parts
of it that are hard to get right and proves what they promise.

- **Paging** (`Vm`, `Replacement`, `Translation`, `Ram`, `Access`, `Linear`,
  `Lifecycle`, `Paging`, `Server`). `Paging.Memoria` is the server as it is coded:
  RAM as one byte array, the frame table, page records, the translation cache with its
  registers, clock hands and tick counters, all updated in place. Its meaning is a
  `Vm.State`, in which the cache has disappeared, and each method's contract says which
  small steps of `Vm` it takes. `Server` puts requests together into runs and shows
  that they are answered as a flat map of bytes per process would answer them.
- **Swap store** (`SwapSpace`, `Swamp`). `Swamp.Almacen` keeps files of bytes, the
  free pool and the processes' page lists. To its client it is a map from (process,
  page) to content; frames are conserved, and a denied request for many pages leaves no
  trace exactly if none of them was held already.
- **Heap** (`HeapChain`, `Heap`). `Heap.Process` runs memalloc and memfree on a flat
  array of bytes that holds its own nine-byte headers. The ghost field `segs` is the
  chain those bytes spell; where the code as written ruins it, that no chain (or none
  with the block asked for) is spelt is proved from the bytes it writes.
- **Kernel** (`Semaphores`, `Deadlock`, `Planner`): counting semaphores and who is
  recorded as their holder, the search for circular waits, and the planner's threads as one
  machine in which any thread may move next: what is never empty, who is let in, and in
  what order.

## As written, and repaired

The code departs from its evident intent in places. Where it does, a flag `repaired` in
the configuration chooses between the code as written (false) and the code mended
(true); the contracts say what holds in both cases, and exactly when the code as written
keeps its promise:

| departure | exact condition |
|---|---|
| a write that faults leaves its page unmarked (memoria/src/esquema/paginacion.c:158) | `Access.WriteExact` |
| caching a page on a read forgets its modified bit (memoria/src/esquema/algoritmos.c:298) | `Access.VisitExact` |
| a process's frames go to process 0, not to the free ones (memoria/src/procesos/clientes.c:386) | `Lifecycle.RemovedExact` |
| suspension reads the record of a page that is not in memory (memoria/src/procesos/clientes.c:89-91) | `Paging.Memoria.Suspender` |
| releasing a cached page reads its record after removal (memoria/src/esquema/paginacion.c:638) | `Paging.Memoria.LiberarUltima` |
| the bounds test adds the offset (memoria/src/procesos/operaciones.c:530) | `Linear.BoundsTest` |
| an interior exact fit is not written back; the split of the last segment divides by zero or is refused; growth by whole pages leaves a block that points past the end; growth after a used last segment writes over the header before it and over page 1 (memoria/src/procesos/operaciones.c:52-84, 92-107, 171, 206-246) | `Heap.Process.Memalloc` |
| a left merge leaves the next segment's back pointer stale (memoria/src/procesos/operaciones.c:361-377) | `Heap.Process.Memfree` |
| dropping a page does not bring the page count down (swamp/src/main.c:1139) | `Swamp.Almacen.BorrarCarpincho` |
| heap_init keeps a page that got no frame (memoria/src/procesos/operaciones.c:551-572) | `Heap.Process.Memalloc` |
| the circle search keeps dead ends between starts (kernel/src/deadlock/deadlock.c:171-185) | `Deadlock.AsWrittenExact` |

The recursive call of `encontrar_circulo` has no return (kernel/src/deadlock/deadlock.c:220);
its value is taken as returned. Three more behaviours are kept as they are, without a
repaired form: memfree turns down blocks at or above the RAM size although the heap can
be larger (memoria/src/procesos/operaciones.c:318), a page whose content begins with the
text "|" is reported missing by the swap store (swamp/src/main.c:308), on which the memory
server aborts (memoria/src/procesos/operaciones.c:437-440), and fixed allocation leaves out
each file's last chunk (swamp/src/main.c:1266). `Server.AnsweredExact` says exactly when a
read or write is not answered for the second reason: no repair made here helps.

## How the proofs go

The written bytes are a ghost map that only writes, releases and exits change. `Vm`'s
write-back invariant says each of them is in the frame of a present page and, unless the
page is marked modified, in swap as well. The clock is specified by the first frame, in
circular order from the hand, of the least class; the sweeps are shown to compute it turn
by turn. The heap's edits are all instances of one lemma about replacing neighbouring
segments of a chain. The swap store's conservation is an equality of multisets, from which
disjointness of held frames follows. What the specification functions compute is stated
again in plain terms where a promise rests on them: `Heap.FirstFitReply`,
`HeapChain.SlipsMean`, `Replacement.ClockMeans`, `SwapSpace.PoolExact`,
`SwapSpace.AllFitMeans`, `Semaphores.HolderIs`, `Planner.Admission`.

## Model

| member | source | states |
|---|---|---|
| Vm.TouchExact | memoria/src/esquema/paginacion.c:125-156 | an access to a page in memory keeps every written byte recoverable exactly when it leaves the page marked modified or its swap copy is current anyway |
| Vm.CleanAgrees | memoria/src/esquema/paginacion.c:216-220 | a page that is out, or in memory unmodified, has every written byte in its swap copy: not sending it loses nothing |
| Vm.UseKeeps | memoria/src/esquema/algoritmos.c:480-539 | choosing a victim, which only changes use values, changes nothing a reader could see |
| Vm.EvictKeeps | memoria/src/esquema/paginacion.c:210-227 | evicting a page, saved first if modified, keeps the frame table consistent and every written byte recoverable |
| Vm.LoadKeeps | memoria/src/esquema/paginacion.c:163-190 | bringing a page from swap into a free frame keeps frames consistent, the quota respected, and every written byte recoverable |
| Vm.CreateKeeps | memoria/src/esquema/paginacion.c:394-399 | a new page gets a frame without content: harmless, as none of its bytes was ever written |
| Vm.NewPageKeeps | memoria/src/esquema/paginacion.c:314-323 | a page record added at the end names a page of which no byte was ever written |
| Vm.DropLastKeeps | memoria/src/procesos/operaciones.c:390-396 | giving back a tail page unsaved keeps every written byte of the remaining pages |
| Vm.StoreExact | memoria/src/procesos/operaciones.c:468-477 | storing bytes keeps the invariant for the updated map of written bytes exactly when the page is marked modified or swap already had those bytes |
| Vm.FrameConservation | memoria/src/esquema/paginacion.c:325-337 | free frames plus present pages is the number of frames, in every state |
| Vm.OwnFramesMatchPages | memoria/src/esquema/algoritmos.c:356-385 | a process owns exactly as many frames as it has present pages, so the bounded sweep of the local clock sees them all |
| Replacement.ClockVictimUnique | memoria/src/esquema/algoritmos.c:542-570 | at most one frame is first, in circular order from the hand, of the least (use, modified) class |
| Replacement.HandGoesRound | memoria/src/esquema/algoritmos.c:472-479 | the hand goes up by one and from the last frame back to the first, and places ahead of it are counted modulo the number of frames |
| Replacement.ClockMeans | memoria/src/esquema/algoritmos.c:542-570 | the victim is unused if any candidate is, unmodified if any of those left is, and of those left the first, upwards and round from the hand |
| Replacement.AfterClockMeans | memoria/src/esquema/algoritmos.c:509-570 | no use bit changes if the victim was unused and unmodified; if it was unused but modified, those between hand and victim are cleared; if it was used, all are |
| Replacement.TurnHits00 | memoria/src/esquema/algoritmos.c:548-552 | a hit of the (0,0) sweep, in the first or second turn of the loop, is that victim, and the use bits are as they should be then |
| Replacement.TurnHits01 | memoria/src/esquema/algoritmos.c:548-554 | the same for a hit of the (0,1) sweep |
| Replacement.TurnMisses | memoria/src/esquema/algoritmos.c:548-554 | two fruitless sweeps can happen only once: then every candidate had been used, and all use bits are clear |
| Replacement.NextCandidate | memoria/src/esquema/algoritmos.c:368-385 | the next own frame from the process's hand is the next one not yet passed in this sweep, so each is visited once |
| Replacement.FullTurn | memoria/src/esquema/algoritmos.c:389-408 | after a sweep that passed all own frames the hand sees them in the same order as before |
| Replacement.SweepStep | memoria/src/esquema/algoritmos.c:516-534 | one round of a (0,1) sweep: the frame is the first of its class, or it is passed over with its use bit cleared |
| Replacement.RecencyAccess | memoria/src/esquema/algoritmos.c:275-278 | stamping the accessed page with the tick counter keeps use values in the order of last accesses |
| Replacement.LeastUseIsOldest | memoria/src/esquema/algoritmos.c:61-100 | the page of least use value is the one whose last access is oldest, all or the process's own |
| Translation.GiveWay | memoria/src/esquema/algoritmos.c:287-294 | the register that gives way is written back to its page's record: no page's effective frame, modified bit or use value changes |
| Translation.Cache | memoria/src/esquema/algoritmos.c:295-300 | filling an empty register with a page and flagging its record changes that page's view only, and keeps the cache coherent |
| Translation.EditReg | memoria/src/esquema/paginacion.c:125-140 | a cache hit edits one register: only that page's effective values change |
| Translation.WriteBackReg | memoria/src/esquema/paginacion.c:255-264 | writing a register back and emptying it changes no page's effective values |
| Translation.Sync | memoria/src/esquema/algoritmos.c:334-346 | copying a register's values into its page's record changes no page's effective values |
| Translation.Cool | memoria/src/esquema/algoritmos.c:528-530 | clearing the use bit in record and register clears exactly that page's effective use bit |
| Translation.FallAsleep | memoria/src/procesos/clientes.c:106-118 | a page put out of memory with its register emptied is seen as out, keeping its modified bit; a cached flag left behind does no harm |
| Translation.LastPagGoes | memoria/src/esquema/paginacion.c:625-650 | removing the last page with its register leaves every other page's effective values |
| Translation.TableGoes | memoria/src/procesos/clientes.c:394-404 | removing a process's table and registers leaves every other process's effective values |
| Access.ChosenSame | memoria/src/esquema/algoritmos.c:480-570 | whichever algorithm is configured, choosing a victim changes no more than use values, and the victim is in memory |
| Access.LruVictimIsOldest | memoria/src/esquema/algoritmos.c:17-100 | LRU is exact: the victim's last access is older than that of any other candidate, although ticks live partly in the cache |
| Access.ClockVictimIs | memoria/src/esquema/algoritmos.c:443-570 | the clock's victim and the resulting use bits are unique; if the victim had been used, every candidate's use bit is now 0 |
| Access.RoomKeeps | memoria/src/esquema/paginacion.c:178-198 | making room, by a free frame or by a victim, leaves a free frame, a place in the quota, all written bytes recoverable, and the incoming page's swap copy as it was |
| Access.VisitExact | memoria/src/esquema/paginacion.c:115-161 | an access keeps all written bytes recoverable exactly when it is a write, or forgets no modified bit, or the swap copy is current: the code as written fails only on reading an uncached modified page with a cache configured |
| Access.MarkIs | memoria/src/esquema/paginacion.c:142-156 | after a hit the page is marked if the access writes, or if it was and the mark is not forgotten, as written by caching the page; after a fault, if repaired and the access writes, or, without a cache, if it kept its mark while out |
| Access.OtherMarks | memoria/src/esquema/paginacion.c:115-161 | an access brings in no other page and changes no other page's mark |
| Access.QuotaFills | memoria/src/esquema/paginacion.c:178-190 | a fault evicts nobody, changes no other page and takes the first free frame exactly if one is free and, under local replacement, the process has fewer pages in memory than its quota; else some page leaves |
| Access.SwapTraffic | memoria/src/esquema/paginacion.c:216-220 | an access sends nothing to the swap store but the content of the page it evicts, if that is marked |
| Access.WriteExact | memoria/src/esquema/paginacion.c:158-161 | a write into one page keeps all bytes, the new ones included, recoverable exactly when the page was present (or its old mark survives the fault) or swap already had those bytes |
| Access.VisitShows | memoria/src/procesos/operaciones.c:433-453 | a read access shows the page's written bytes, even the one that forgets a modified bit, and keeps all other pages' bytes recoverable |
| Access.VisitRecency | memoria/src/esquema/algoritmos.c:249-273 | every access, fault and replacement included, keeps use values in the order of last accesses |
| Access.StaysIn | memoria/src/procesos/operaciones.c:466-484 | writing to a page in memory takes no page out of memory |
| Access.LostWrite | memoria/src/esquema/paginacion.c:158 | a run of the code as written in which a byte written on a fault is gone after the page's eviction |
| Access.ForgottenMark | memoria/src/esquema/algoritmos.c:298 | a run of the code as written in which reading an uncached modified page makes its next eviction lose the byte |
| Access.MistakenExact | swamp/src/main.c:308 | a page out of memory that the swap store fails to hand back begins, as far as it was written, with the text for none; and if both first bytes were written, that is all it takes |
| Access.MistakenRun | memoria/src/esquema/paginacion.c:163-174 | a run, with all repairs made, in which ordinary data makes a page impossible to fetch after its eviction |
| Access.CutExact | memoria/src/procesos/operaciones.c:433-441 | a request over several pages is cut short exactly at the first page that is out of memory, when its turn comes, with a copy taken for missing; for a request inside one page that is known beforehand |
| Access.UnsafeGoesStale | memoria/src/esquema/paginacion.c:158 | after an unmarked write of bytes that swap does not have, some byte is in no place it can be saved from |
| Access.ForgottenGoesStale | memoria/src/esquema/algoritmos.c:298 | a read keeps all written bytes recoverable if the page keeps its mark or swap has those bytes; and if not, some byte is in no place it can be saved from |
| Access.StaleStays | memoria/src/esquema/paginacion.c:210-227 | a byte lost in this way stays lost while other pages are visited |
| Linear.AddressRoundTrip | memoria/src/esquema/paginacion.c:502-515 | page and offset of a linear address give that address back |
| Linear.PageRoundTrip | memoria/src/esquema/paginacion.c:502-515 | the address of a page and offset gives both back |
| Linear.BoundsTest | memoria/src/procesos/operaciones.c:522-532 | the bounds test turns down no request whose end lies inside the pages; it is right for every length exactly when it is repaired or the offset is 0 |
| Linear.WroteAt | memoria/src/procesos/operaciones.c:459-487 | after a write, its addresses have its bytes and every other address what it had |
| Linear.WroteMore | memoria/src/procesos/operaciones.c:466-484 | writing page by page amounts to writing the bytes in a row at the linear address |
| Linear.AgreesMore | memoria/src/procesos/operaciones.c:433-453 | reading page by page amounts to reading the bytes in a row at the linear address |
| Lifecycle.CreatedKeeps | memoria/src/esquema/paginacion.c:339-392 | creating a page, replacement included, keeps frames, quota and all written bytes |
| Lifecycle.CreatedIs | memoria/src/esquema/paginacion.c:360-399 | a created page is in the frame that was had for it, unmarked, and no byte of memory changes |
| Lifecycle.StartedKeeps | memoria/src/procesos/clientes.c:253-260 | a new process's empty table changes nothing for the others |
| Lifecycle.SuspendOne | memoria/src/procesos/clientes.c:87-121 | suspending one more page is one eviction, or nothing if it was out |
| Lifecycle.SuspendStep | memoria/src/procesos/clientes.c:87-121 | at every point of the suspension loop frames are consistent and all written bytes recoverable |
| Lifecycle.SuspendedIs | memoria/src/procesos/clientes.c:85-123 | after a suspension each page is out with the mark it had, its frame is free, and swap has the content of the marked pages and is otherwise as before; so is every other process |
| Lifecycle.RemovedExact | memoria/src/procesos/clientes.c:376-392 | after a process leaves, the frame table matches the page tables exactly when its frames really became free or it had none; others' bytes are kept |
| Paging.Memoria.constructor | memoria/src/esquema/paginacion.c:27-62 | everything starts empty, all frames free, all invariants hold |
| Paging.Memoria.BuscarReg | memoria/src/esquema/tlb.c:173-187 | finds the register of a page, or says there is none |
| Paging.Memoria.TlbLugarLibre | memoria/src/esquema/tlb.c:122-134 | the first empty register, or -1 exactly if there is none |
| Paging.Memoria.FifoTlb | memoria/src/esquema/tlb.c:142-158 | the register of least stamp |
| Paging.Memoria.TlbObtenerVictima | memoria/src/esquema/tlb.c:114-120 | an empty register if there is one; else the one of least stamp, which under FIFO is the one filled before all others |
| Paging.Memoria.TlbInsertPage | memoria/src/esquema/algoritmos.c:285-301 | the page gets a register with the given frame and modified bit, an empty one or, under FIFO, the one filled longest ago; the other registers stay, and until its record is flagged nobody sees a change |
| Paging.Memoria.UsarRegistro | memoria/src/esquema/tlb.c:166-170 | a register used: only its page's effective values change; under FIFO its stamp stays, under LRU it gets the next value of the second counter |
| Paging.Memoria.TlbAcierto | memoria/src/esquema/paginacion.c:125-140 | a cache hit is one access: use bit set or a fresh tick, modified bit kept or set; every register keeps its page |
| Paging.Memoria.TablaAcierto | memoria/src/esquema/paginacion.c:142-156 | a page-table hit is one access, and with a cache the page has a register afterwards, the one that gave way; the others keep their pages; as written a read then forgets the modified bit |
| Paging.Memoria.Registrar | memoria/src/esquema/algoritmos.c:285-301 | a page becomes present in a frame and, with a cache, takes the register that gives way; the other registers keep their pages and no other page's view changes |
| Paging.Memoria.Memcpy | memoria/src/esquema/paginacion.c:272-276 | bytes copied into a frame change that stretch of that frame and no other |
| Paging.Memoria.LeerRam | memoria/src/esquema/paginacion.c:562-564 | the bytes of a frame |
| Paging.Memoria.MarcoLibre | memoria/src/esquema/paginacion.c:325-337 | the first free frame, or -1 exactly if there is none |
| Paging.Memoria.PaginasPresentes | memoria/src/esquema/paginacion.c:581-593 | the number of the process's present pages |
| Paging.Memoria.Mirar | memoria/src/esquema/algoritmos.c:334-346 | a present page's record is brought up to date with its register; nobody sees a change |
| Paging.Memoria.Enfriar | memoria/src/esquema/algoritmos.c:528-530 | the page's use bit is cleared for everybody, and nothing else changes |
| Paging.Memoria.Buscar00 | memoria/src/esquema/algoritmos.c:480-507 | the first unused unmodified page from the hand on, or none at all; the hand ends one past it or where it was |
| Paging.Memoria.Buscar01 | memoria/src/esquema/algoritmos.c:509-539 | the first unused modified page from the hand on, or none; exactly the pages passed over lose their use bit |
| Paging.Memoria.Cd | memoria/src/esquema/algoritmos.c:542-570 | ends within two turns of the loop with the first frame, from the hand on, of the least class; hand one past it; use bits cleared as the clock promises |
| Paging.Memoria.SiguientePropio | memoria/src/esquema/algoritmos.c:368-385 | ends, because the process has a frame, at its next one from its hand on |
| Paging.Memoria.Buscar00Fijo | memoria/src/esquema/algoritmos.c:386-411 | as the (0,0) sweep, over the process's frames and with its hand |
| Paging.Memoria.Buscar01Fijo | memoria/src/esquema/algoritmos.c:413-441 | as the (0,1) sweep, over the process's frames and with its hand |
| Paging.Memoria.VueltaFija | memoria/src/esquema/algoritmos.c:447-468 | one turn of the local clock ends with its victim, or only the first time without, all use bits then cleared |
| Paging.Memoria.ClockFijo | memoria/src/esquema/algoritmos.c:443-470 | the clock's promise restricted to the process's own frames |
| Paging.Memoria.LruFijo | memoria/src/esquema/algoritmos.c:61-100 | the process's present page of least use value, with its record up to date |
| Paging.Memoria.LruDinamico | memoria/src/esquema/algoritmos.c:17-59 | the present page of least use value of all processes |
| Paging.Memoria.AlgoritmoMmu | memoria/src/esquema/paginacion.c:192 | the configured algorithm's promise, and the chosen page's record marked as gone; the clock hand one past its frame; every register keeps its page |
| Paging.Memoria.LimpiarRegistro | memoria/src/esquema/paginacion.c:235-244 | the register of the page is emptied and no other |
| Paging.Memoria.EnviarPaginaASwap | memoria/src/esquema/paginacion.c:555-578 | the swap copy becomes the frame's content; the page's register is emptied |
| Paging.Memoria.Desalojar | memoria/src/esquema/paginacion.c:210-220 | the victim's register is emptied, its frame handed over, and its content sent to swap if it was modified: exactly an eviction |
| Paging.Memoria.ReemplazarPagina | memoria/src/esquema/paginacion.c:210-227 | is exactly an eviction of the victim, saved from its frame before that is overwritten, followed by the new page entering that frame and, with a cache, taking the register that gives way once the victim's is empty |
| Paging.Memoria.HayMarco | memoria/src/esquema/paginacion.c:178-182 | a free frame is used exactly if there is one and, under local replacement, the quota allows |
| Paging.Memoria.Alojar | memoria/src/esquema/paginacion.c:182-198 | the page enters the free frame, or one taken from a victim, and, with a cache, takes the register that gives way once any victim's is empty; the clock hand ends one past a frame taken and is otherwise where it was |
| Paging.Memoria.BuscarEnSwap | memoria/src/esquema/paginacion.c:163-200 | -1 exactly if the swap copy is taken for a missing page, and then nothing changes; else a fault is exactly: room made, page loaded with its swap copy; with a cache it has a register then, the one that gave way once any victim's was empty, and other pages keep theirs |
| Paging.Memoria.PuedeVisitar | memoria/src/esquema/paginacion.c:163-182 | whether a fault can be answered, or ends before a frame is looked for |
| Paging.Memoria.EnMemoria | memoria/src/esquema/paginacion.c:120-156 | the cache is asked first, then the page table; -1 exactly if the page is out of memory, and then nothing changes; else it is one access as described |
| Paging.Memoria.NroMarco | memoria/src/esquema/paginacion.c:115-161 | -2 exactly for a page past the end, -1 exactly for one out of memory whose copy is taken for missing; otherwise the page is in the returned frame afterwards, by a hit or a fault as described, and with a cache it has a register: its own, or the one that gave way once any victim's was empty; other pages keep theirs; the clock's use bit is set, or a fresh tick given, and the hand is one past a frame taken and otherwise where it was |
| Paging.Memoria.LeerEnPagina | memoria/src/procesos/operaciones.c:435-445 | nothing exactly if the page is not handed back; else bytes of one page, and exactly when the access keeps all written bytes recoverable |
| Paging.Memoria.EscribirEnPagina | memoria/src/procesos/operaciones.c:468-477 | refused exactly if the page is not handed back; else bytes stored in one page, and exactly when that keeps all written bytes recoverable |
| Paging.Memoria.MemoriaLeer | memoria/src/procesos/operaciones.c:424-457 | a request inside the process's pages goes from page to page to its end, or to the first page not handed back; it returns, at every address ever written, the last byte written there, even if faults on the way evict pages read before; all written bytes stay recoverable exactly if no page on the way forgets a mark that its swap copy needs, which inside one page is known beforehand; other requests are refused and change nothing |
| Paging.Memoria.MemoriaEscribir | memoria/src/procesos/operaciones.c:459-487 | exactly the addresses of the request are written, up to the first page not handed back; all written bytes stay recoverable exactly if each page of the request, when its turn comes, is in memory, or keeps its mark, or swap has those bytes already; so if repaired, or if all touched pages were in memory |
| Paging.Memoria.EscribirPaginas | memoria/src/procesos/operaciones.c:466-484 | the loop: it ends with the last byte, or exactly at a page that is not handed back |
| Paging.Memoria.ConcederPagina | memoria/src/procesos/operaciones.c:588-606 | a page granted by the swap store changes nothing for a reader |
| Paging.Memoria.CrearProceso | memoria/src/procesos/clientes.c:253-260 | a new process has an empty table, the last place in the list and its clock hand at the start; nothing else changes |
| Paging.Memoria.PaginaIniciar | memoria/src/esquema/paginacion.c:339-392 | answers 0 exactly if a frame could be had, and then is a page created in the room made, cached like a faulting one; otherwise the page stays out and the answer is -1 |
| Paging.Memoria.AlojarNueva | memoria/src/esquema/paginacion.c:360-392 | the new last page enters the room made for it: exactly a page creation |
| Paging.Memoria.DormirPagina | memoria/src/procesos/clientes.c:96-118 | is exactly an eviction that keeps the modified bit |
| Paging.Memoria.Suspender | memoria/src/procesos/clientes.c:85-123 | every page of the process leaves memory, the modified ones saved; as written it gets to the end exactly if all pages were in memory |
| Paging.Memoria.LimpiarTlb | memoria/src/signals/signal.c:133-173 | every register is empty and nobody sees a change |
| Paging.Memoria.LiberarUltima | memoria/src/procesos/operaciones.c:390-396 | the last page is given back; as written exactly if it was not cached |
| Paging.Memoria.EntregarMarcos | memoria/src/procesos/clientes.c:380-389 | every frame of the process, and no other, is relabelled |
| Paging.Memoria.SacarDeLista | memoria/src/procesos/clientes.c:295-314 | the process leaves the list and the clock hands; under the clock the next one in the list's circular order has its hand set to 0, and no other hand moves |
| Paging.Memoria.EliminarProceso | memoria/src/procesos/clientes.c:361-404 | table, frames and registers go; the invariants hold afterwards exactly if repaired or no page was present |
| Server.HandleRead | memoria/src/procesos/clientes.c:214-228 | a read is answered as the flat reference answers it; it is stuck exactly if, in bounds and not empty, no frame can be had and its first page would be handed back; it aborts exactly at a page not handed back |
| Server.HandleWrite | memoria/src/procesos/clientes.c:230-239 | the same for a write; of an aborted one exactly the bytes of the pages before are stored |
| Server.StuckMeans | memoria/src/esquema/paginacion.c:178-198 | a request of a known process is stuck exactly if, under local replacement, the process has no page in memory and no frame is free, and its first page is not one whose copy is taken for missing |
| Server.HandleSuspend | memoria/src/procesos/clientes.c:85-123 | a suspension is invisible to the flat reference |
| Server.HandleFlush | memoria/src/signals/signal.c:133-149 | a cache flush is invisible to the flat reference |
| Server.HandleShrink | memoria/src/procesos/operaciones.c:390-396 | giving back a tail page forgets its bytes and no others |
| Server.HandleExit | memoria/src/procesos/clientes.c:241-250 | a process's exit forgets its bytes and no others |
| Server.Serve | memoria/src/procesos/clientes.c:31-134 | transparency over whole runs: any sequence of requests is answered as the flat per-process map of bytes answers it, for every replacement policy, assignment policy and cache size, each request stuck or aborted exactly when the memory before it and on its way says so |
| Server.SparedRun | memoria/src/procesos/clientes.c:31-134 | a written byte stays as it is through any stretch of a run that does not write over it or give its page back |
| Server.ReadsLastWrite | memoria/src/procesos/operaciones.c:424-487 | the headline: in any run a byte read is the last one written at that process and address |
| Server.AnsweredExact | memoria/src/procesos/clientes.c:214-239 | in any run a read or write in bounds is answered exactly unless no frame can be had, or a page of it is out of memory, when its turn comes, with a copy taken for missing; which takes a page whose written bytes may begin with that text |
| Server.OnePageExact | memoria/src/procesos/operaciones.c:435-440 | a request inside one page whose first two bytes were written aborts exactly if the page is out of memory and those bytes are the text for none |
| Server.TextThenSuspend | memoria/src/procesos/operaciones.c:435-440 | in every run in which a process writes that text at the start of a page, is suspended and reads the page, the read aborts |
| SwapSpace.PoolFacts | swamp/src/main.c:969-986 | the initial pool lists no frame twice, each at a multiple of its size |
| SwapSpace.PoolExact | swamp/src/main.c:969-986 | the free pool at the start has, in every file, every multiple of the unit below the file size, or below one unit less under fixed allocation, and nothing else; file after file, upwards, so nothing twice |
| SwapSpace.PoolInside | swamp/src/main.c:969-986 | every frame of the pool lies inside its file exactly when pages divide the file, or allocation is fixed |
| SwapSpace.LastUnitLeftOut | swamp/src/main.c:1261-1278 | fixed allocation never hands out a file's last chunk, though it fits |
| SwapSpace.HeldOnce | swamp/src/main.c:987-1009 | a held frame belongs to the pool, is not free, and is held once |
| SwapSpace.PagesApart | swamp/src/main.c:861 | two pages, of one process or of two, occupy disjoint byte ranges |
| SwapSpace.GrantKeeps | swamp/src/main.c:1095-1114 | granting a page keeps free plus held frames equal to the initial pool |
| SwapSpace.DropKeeps | swamp/src/main.c:1133-1144 | dropping a page keeps free plus held frames equal to the initial pool, whether or not the page count goes down |
| SwapSpace.SlotKeeps | swamp/src/main.c:1602-1619 | giving a slot to a page, or emptying it, keeps the pool and the one-slot-per-page rule |
| SwapSpace.LeaveKeeps | swamp/src/main.c:1539-1549 | a process that leaves gives back exactly what it held |
| SwapSpace.SameFree | swamp/src/main.c:237-254 | with the same pages held, the free frames are the same |
| SwapSpace.HeldPageLost | swamp/src/main.c:237-254 | for every state: a denied request leaves a page it names that was held looked up elsewhere or nowhere (nowhere under fixed allocation), and every other page looked up as before |
| SwapSpace.FirstPlaceOnce | swamp/src/main.c:1128-1148 | taking back the first entry of a page never leaves the page in the same frame |
| SwapSpace.UndoneNew | swamp/src/main.c:237-254 | taking back a request none of whose pages was held leaves the list it found, in either mode |
| SwapSpace.DeniedExact | swamp/src/main.c:218-262 | for every state: look-ups and free frames are as before a denied request exactly if none of its pages was looked up before it; then only the page count can differ |
| SwapSpace.AllFitNew | swamp/src/main.c:368-421 | if none of the pages is held, a request fits exactly if there are as many places as pages |
| SwapSpace.AllFitMeans | swamp/src/main.c:368-421 | counted on the lists: under dynamic allocation a request fits if the process's file has as many free frames as it names pages; under fixed allocation, if the pages before the last that the process does not hold are fewer than its empty slots |
| SwapSpace.BestMeans | swamp/src/main.c:1207-1260 | counted on the lists: no file has more free frames than the best; none with as many has fewer processes; of those with as few it is the first |
| Swamp.MarcosLibres | swamp/src/main.c:969-986 | the free pool at the start: in every file exactly the multiples of the page size below the file size, or of the chunk size below one chunk less under fixed allocation, each once, file after file and upwards |
| Swamp.Almacen.BuscarMarcoLibre | swamp/src/main.c:987-1009 | the first free frame of the file is taken out; -1 exactly if there is none |
| Swamp.Almacen.QuedaPaginasEnArchivo | swamp/src/main.c:1079-1094 | whether the process's file has a free frame |
| Swamp.Almacen.ElegirMejorArchivo | swamp/src/main.c:1207-1260 | -1 exactly if nothing is free; else the first file that is best by most free frames, then fewest processes |
| Swamp.Almacen.CrearCarpincho | swamp/src/main.c:793-820 | a new process in the best file exactly if something is free and the process is new; no content changes |
| Swamp.Almacen.SolicitudPagina | swamp/src/main.c:1095-1114 | the first free frame of the process's file for the page, exactly if there is one; no held page's content changes |
| Swamp.Almacen.AgregarPaginaDinamica | swamp/src/main.c:822-883 | afterwards the page reads as written; every other page as before |
| Swamp.Almacen.BuscarPaginaDinamico | swamp/src/main.c:885-935 | the last content written to a held page; for one not held, the process's last page, or the text that means none |
| Swamp.Almacen.BorrarPagina | swamp/src/main.c:1115-1157 | the page is wiped and its frame given up; every other page reads as before |
| Swamp.Almacen.BorrarCarpincho | swamp/src/main.c:1010-1078 | the process goes, its pages are wiped and their frames return in order; it reads past its page list exactly when its page count exceeds its pages; other processes' pages read as before |
| Swamp.Almacen.CrearCarpinchoFija | swamp/src/main.c:1160-1206 | a new process with the first free chunk of the best file; no content changes |
| Swamp.Almacen.RemplazoPaginaFija | swamp/src/main.c:1399-1448 | afterwards the page reads as written; every other page as before |
| Swamp.Almacen.BuscarPaginaFija | swamp/src/main.c:1450-1482 | the last content written to a held page |
| Swamp.Almacen.BorrarPaginaFija | swamp/src/main.c:1483-1520 | the page is wiped and its slot emptied; every other page reads as before |
| Swamp.Almacen.SolicitarPaginaFija | swamp/src/main.c:1592-1623 | an empty slot for a page not held, if there is one; the answer is 1 in any case for a known process |
| Swamp.Almacen.BorrarCarpinchoFija | swamp/src/main.c:1521-1556 | the chunk is wiped and returns to the pool; other processes' pages read as before |
| Swamp.Almacen.ObtenerPagina | swamp/src/main.c:284-327 | a held page is answered with its content, another one, under dynamic allocation, with that of the process's last page, if any; but content spelling the text for none is taken for a missing page |
| Swamp.Almacen.PedirPagina | swamp/src/main.c:182-217 | granted exactly if a place is left, in either mode; a page held already gets one more frame under dynamic allocation and nothing under fixed, and keeps its content in both |
| Swamp.Almacen.PedirOtra | swamp/src/main.c:375-410 | one more page of a request, and the places it takes |
| Swamp.Almacen.SolicitudMuchasPaginas | swamp/src/main.c:368-421 | granted exactly if a place is left whenever the next page's turn comes; in any case the first pages of the request are held on top of what was held, which keeps its content |
| Swamp.Almacen.DeshacerUna | swamp/src/main.c:241-253 | the page's first entry goes, or is emptied |
| Swamp.Almacen.DeshacerPedido | swamp/src/main.c:237-254 | each page of a denied request, granted or not, is given up once, in order; no other page changes |
| Swamp.Almacen.MuchasPaginas | swamp/src/main.c:218-262 | granted exactly if a place is left whenever the next page's turn comes; denied, it leaves look-ups and free frames as they were exactly if none of its pages was held, and then everything (as written, but for the page count); pages held are looked up elsewhere or nowhere; no other page's content changes |
| HeapChain.WriteThenRead | memoria/src/procesos/operaciones.c:534-548 | a header written is the header read |
| HeapChain.ChainUnique | memoria/src/procesos/operaciones.c:34-49 | a memory spells one chain of segments at most |
| HeapChain.LiveApart | memoria/src/procesos/operaciones.c:16-259 | blocks in use are disjoint and inside memory |
| HeapChain.Edit | memoria/src/procesos/operaciones.c:109-137 | replacing neighbouring segments, once their headers are written, spells the new tiling, without two free neighbours, and changes the blocks in use by exactly those segments |
| HeapChain.Shrink | memoria/src/procesos/operaciones.c:386-398 | giving back the end of a free last segment keeps the chain and every block |
| HeapChain.PagesLeast | memoria/src/procesos/operaciones.c:145-156 | the pages asked for are the fewest with which the request fits at the end of memory: in the free last segment grown by them, or in a segment of their own |
| HeapChain.SlipsMean | memoria/src/procesos/operaciones.c:51-171 | in terms of segments and room: where the code as written slips when a segment is taken, split or memory grows |
| HeapChain.PrecedenceSlip | memoria/src/procesos/operaciones.c:171 | the test as written for growth by whole pages is never true where it is reached |
| Heap.Process.HeapInit | memoria/src/procesos/operaciones.c:551-572 | one free segment in one page, exactly if a page is granted and a frame can be had for it; if only the frame fails, as written the page stays as a heap without a header, whatever it holds |
| Heap.Process.TomarJusto | memoria/src/procesos/operaciones.c:51-85 | an exact fit becomes a block of that size; all other blocks and their bytes are kept |
| Heap.Process.Partir | memoria/src/procesos/operaciones.c:87-138 | a split gives a block of exactly the size asked for; all other blocks and their bytes are kept |
| Heap.Process.CrecerLibre | memoria/src/procesos/operaciones.c:183-203 | growth after a free last segment gives a block of exactly the size asked for; where nothing is left after it, the header past the end is refused by the bounds test and no chain is spelt |
| Heap.Process.CrecerJusto | memoria/src/procesos/operaciones.c:171-181 | growth by whole pages exactly gives a block that ends with memory |
| Heap.Process.Extender | memoria/src/procesos/operaciones.c:205-247 | the intended growth after a last segment in use puts the block at the old end of memory |
| Heap.Process.EscribirEnFirst | memoria/src/procesos/operaciones.c:212 | the write at offset -2 of page 0: refused on a memory of less than eleven bytes, and else the first header is overwritten from its third byte on |
| Heap.Process.ExtenderPisando | memoria/src/procesos/operaciones.c:205-247 | the same growth as written: memory afterwards byte by byte; whatever headers it overwrites, no chain with the block asked for and all other blocks is spelt; and none at all unless other headers are overwritten by chance |
| Heap.Process.HayCambioDePagina | memoria/src/procesos/operaciones.c:285-292 | whether a page boundary lies in the range |
| Heap.Process.PedirYCrecer | memoria/src/procesos/operaciones.c:145-248 | denied exactly if fewer pages are on offer than needed; else the block is had exactly if repaired, or after a free last segment without growing by whole pages exactly |
| Heap.Process.Memalloc | memoria/src/procesos/operaciones.c:16-259 | memory spells a chain with one block more, of exactly the size asked for, disjoint from all others, whose bytes are kept, at the address returned, exactly when the request can be met, the first page of all gets its frame and, as written, none of the four slips applies; repaired, the first free segment with room for the size exactly, or for it and a header, gives the block and memory grows by a page at most; only if there is none does it grow, by the fewest pages that do, or the call is denied for want of them; the tiling and the merged free segments are kept; the walk ends |
| Heap.Process.UnirDerecha | memoria/src/procesos/operaciones.c:344-359 | the merge with a free right neighbour, header by header |
| Heap.Process.UnirIzquierda | memoria/src/procesos/operaciones.c:361-377 | the merge with a free left neighbour, header by header |
| Heap.Process.Unir | memoria/src/procesos/operaciones.c:342-381 | the freed segment and its free neighbours become one; as written a left merge with a segment after it leaves memory that spells no chain |
| Heap.Process.Memfree | memoria/src/procesos/operaciones.c:313-404 | frees exactly the blocks in use whose address is below the RAM size; afterwards that block and no other is gone, tiling and merging hold, and a free tail keeps less than a page; as written a left merge with a segment after it leaves memory that spells no chain |
| Heap.Process.Devolver | memoria/src/procesos/operaciones.c:386-398 | tail pages are given back without cutting the last header |
| Heap.NeverInconsistent | memoria/src/procesos/operaciones.c:40-45 | the consistency check of the walk never fires on a well-formed heap |
| Heap.StrandedAborts | memoria/src/procesos/operaciones.c:42-45 | on such a page, wiped by the swap store, the next memalloc's walk finds its first header inconsistent and aborts |
| Heap.NoChainLeft | memoria/src/procesos/operaciones.c:361-380 | after the left merge as written, with a segment to follow, no chain at all is spelt |
| Heap.NoChainOverrun | memoria/src/procesos/operaciones.c:183-203 | after growth by whole pages exactly, as written, no chain at all is spelt |
| Heap.TailNotMet | memoria/src/procesos/operaciones.c:205-246 | after growth behind a used last segment, as written, no chain has both that segment as it was and the new block, for every overlap of the headers written |
| Heap.NoChainBack | memoria/src/procesos/operaciones.c:212 | a header that points back at its own start, reached from the first, ends every chain |
| Heap.ChanceChain | memoria/src/procesos/operaciones.c:205-246 | an input on which the block's header runs into another one, and what results spells a chain: the condition for none at all is needed |
| Semaphores.Kernel.Init | kernel/src/io_semaforos/io_semaforos.c:103-133 | a new semaphore exactly if the name is new |
| Semaphores.Kernel.Wait | kernel/src/io_semaforos/io_semaforos.c:29-48 | the value goes down by one; at exactly 0 the caller is recorded as holder, below 0 it is queued last and blocks |
| Semaphores.Kernel.Post | kernel/src/io_semaforos/io_semaforos.c:76-101 | the value goes up by one; at 1 or more nobody is recorded as holder; the process blocked first, if any, is woken |
| Semaphores.FairCounting | kernel/src/io_semaforos/io_semaforos.c:29-101 | in any run from v >= 0, requests are granted in the order made, min(waits, v + posts) of them; the rest are blocked in that order, max(0, -value) of them |
| Semaphores.HolderIs | kernel/src/io_semaforos/io_semaforos.c:29-101 | in every run, from any initial value: the recorded holder is the process of the last wait that brought the value to 0, if no post since brought it to 1 or more; else nobody |
| Semaphores.NegativeStart | kernel/src/io_semaforos/io_semaforos.c:103-133 | the queue matches the value in every run exactly when the initial value is not negative |
| Deadlock.NodesAre | kernel/src/deadlock/deadlock.c:29-55 | the nodes are exactly the semaphores whose recorded holder is blocked, no semaphore held twice |
| Deadlock.NodesInOrder | kernel/src/deadlock/deadlock.c:29-55 | the nodes come in the order of the semaphores they hold |
| Deadlock.Detector.Enlistar | kernel/src/deadlock/deadlock.c:29-55 | the list of nodes read off the semaphores |
| Deadlock.Detector.BuscarEnOtrasListas | kernel/src/deadlock/deadlock.c:118-167 | the first semaphore in whose queue the process is |
| Deadlock.Detector.CompararLista | kernel/src/deadlock/deadlock.c:230-266 | the first node that holds what this one waits for |
| Deadlock.Detector.EncontrarCirculo | kernel/src/deadlock/deadlock.c:205-227 | list, auxiliary list and answer of the search, as the specification function gives them |
| Deadlock.Detector.VerificarEsperaCircular | kernel/src/deadlock/deadlock.c:169-203 | the same for the loop over starts |
| Deadlock.Detector.Detectar | kernel/src/deadlock/deadlock.c:15-103 | the detection answers yes exactly if recorded holders wait for one another in a circle; as written also if two chains merge |
| Deadlock.ChaseFromEmpty | kernel/src/deadlock/deadlock.c:205-227 | with an empty auxiliary list the answer is yes exactly if the chain runs into a circle; the list is then a tail followed by that circle |
| Deadlock.CircleIsFound | kernel/src/deadlock/deadlock.c:169-203 | if the recorded graph has a circle the search says yes, as written too |
| Deadlock.FoundIsCircle | kernel/src/deadlock/deadlock.c:169-203 | the repaired search says yes only with a tail and a real circle |
| Deadlock.FalseAlarm | kernel/src/deadlock/deadlock.c:171-185 | two nodes without a circle on which the search as written says yes |
| Deadlock.AsWrittenExact | kernel/src/deadlock/deadlock.c:169-203 | the search as written says yes exactly when there is a circle or two chains run together whose later start no earlier node leads to |
| Deadlock.DetectionExact | kernel/src/deadlock/deadlock.c:15-103 | end to end, from the semaphores' records: listing the nodes and the repaired search say yes exactly if there is a circle of semaphores whose recorded holders wait for one another; as written also if two chains merge |
| Planner.LongPopStep | kernel/src/planificacion/planificacion.c:316-345 | the long-term planner, past both semaphores and its test of suspendido_listo, finds a process in the queue it chose and admits it, though others run between the test and the pop |
| Planner.CpuRemoveStep | kernel/src/planificacion/planificacion.c:20-25 | a CPU thread past its semaphore finds a ready process |
| Planner.CpuLeaveSteps | kernel/src/planificacion/planificacion.c:38-79 | blocking, suspending and closing keep every count, whether or not the receptor has queued the process yet; a suspension posts its semaphore and gives its place back in two further steps |
| Planner.MediumPopStep | kernel/src/planificacion/planificacion.c:293-314 | the medium-term planner past its semaphore finds a suspended process |
| Planner.WakeStep | kernel/src/planificacion/planificacion.c:370-386 | waking a blocked process keeps every count between the insertion and the post |
| Planner.ExitStep | kernel/src/main.c:463-467 | the receptor's last post gives the process's place back, once |
| Planner.ArriveStep | kernel/src/main.c:199-227 | a new instance keeps every count between the push and the post |
| Planner.QueuedStep | kernel/src/planificacion/planificacion.c:15-386 | no step of any thread takes from an empty queue, even with posts that come before the CPU has marked a process, and suspensions that come after them |
| Planner.HastenStep | kernel/src/main.c:291-294 | a post that reaches a process its CPU has not marked yet keeps every count and place |
| Planner.LateSteps | kernel/src/planificacion/planificacion.c:61-74 | so does the CPU that finds the event then and leaves the process in memory, or another CPU that runs the process by then and finds the event |
| Planner.TakeSound | kernel/src/planificacion/planificacion.c:15-386 | no step of any thread takes from an empty queue, and every step keeps the accounts but one: the suspension of a process that was enlisted again before its CPU marked it |
| Planner.EveryRun | kernel/src/main.c:532-552 | under every interleaving, early posts included, no queue is popped empty; and unless a process is suspended after it was enlisted again too early, admitted processes that are not suspended never exceed the degree of multiprogramming |
| Planner.Admission | kernel/src/planificacion/planificacion.c:327-341 | in every run, whatever other threads do between the look and the pop: if suspendido_listo was not empty at the look, its oldest process is admitted, and else the oldest of cola_new; nobody else is |
| Planner.AwakeFirst | kernel/src/planificacion/planificacion.c:327-341 | by places: while a suspended process is ready, no new one is admitted |
| Planner.NoOvertaking | kernel/src/planificacion/planificacion.c:282-341 | in every run without late suspensions: who arrives, is suspended, or comes to suspendido_listo while another waits there does not leave before it; so a suspended process waits for the events of those suspended before it |
| Planner.SleepsOn | kernel/src/planificacion/planificacion.c:301-308 | nobody suspended comes back before its event |
| Planner.OneEventEach | kernel/src/planificacion/planificacion.c:301-308 | in every run without late suspensions: a process comes back from its suspension at most as often as its event came |
| Planner.Moves | kernel/src/planificacion/planificacion.c:15-386 | a step moves one process at most, and only along the ways from new to gone; a CPU takes the first of the ready list |
| Planner.ReadyKeepsOrder | kernel/src/planificacion/planificacion.c:15-25 | the ready list changes only by a process put in somewhere or by its first one taken out: the others keep their order |
| Planner.RestsForReason | kernel/src/planificacion/planificacion.c:15-345 | when no thread can go on by itself, nobody waits to be admitted or all places are taken; nobody is ready or each CPU has a process; nobody suspended is left to look at or the medium-term planner waits for an event |
| Planner.TooMany | kernel/src/planificacion/planificacion.c:282-291 | that condition is needed: a run with degree 1 that ends with two processes in memory |

## Left out

- Paging.Memoria.BuscarEnSwap: requires that a frame can be had for a page that is handed back; under local replacement with no frame of its own and none free, the code aborts or loops for ever. `Paging.Memoria.PuedeVisitar` decides it and `Server` answers `Stuck`.
- Paging.Memoria.MemoriaLeer: requires, for the code as written, that the bounds test accepts nothing outside the process's pages, where the code would read outside RAM; `Linear.BoundsTest` says when that is so.
- Paging.Memoria.MemoriaEscribir: requires the same of the bounds test.
- Paging.Memoria.TlbObtenerVictima: under LRU replacement of the cache the register of least stamp gives way, but that it was used longest ago is not claimed, as hits there are stamped from a second, lagging counter.
- Swamp.Almacen.ObtenerPagina: under fixed allocation requires a held page; for another one the handler sends bytes beyond an empty text.
- Swamp.Almacen.AgregarPaginaDinamica: requires a free frame for a page that has none; without one the code writes at base -1.
- Swamp.Almacen.RemplazoPaginaFija: requires an empty slot for a page that has none; without one the code overwrites the last slot's page.
- Swamp.Almacen.MuchasPaginas: requires a known process and non-negative page numbers, each named once, as its only client sends them; for another process the handler reads through a null pointer.
- Heap.Process.Memalloc: sizes and memory stay below two to the 31st, and negative sizes are left out. The two bytes that growth as written puts before page 0's frame are followed only into the process's own pages, not into another process's or outside RAM.
- Heap.Process.ExtenderPisando: that no chain at all is spelt is shown when the headers written at page 1 and after the block overlap no header before the last. `Heap.ChanceChain` shows that this is needed, not that it is the exact condition, which depends on user data.
- Heap.Process.Memfree: requires the address of a segment, free or not, or one the code turns down; for others the code reads arbitrary bytes as a header.
- Semaphores.Kernel.Post: records which process wakes; whether it is then enlisted or, if suspended, signalled is in `Planner`.
- Semaphores.Kernel.Wait: the recorded holder is the one the code records (`Semaphores.HolderIs`); that it is the only process let through is not claimed.
- The heap runs on a flat memory, which `Server` shows the paged one to be. Records read after they were freed (memoria/src/procesos/operaciones.c:246, 254-255, 386) are taken to keep their values.
- Page and register records are values inside the lists that are reassigned, not shared mutable objects, so aliasing between them is not modelled.
- Swap traffic between memory server and swap store is a map. `Swamp` is such a map for held pages, except that content beginning with the text for none is not handed back, which `Paging.Memoria.BuscarEnSwap` takes into account. Sockets, framing, client library, configuration files, loggers, dumps, delays and hit counters are left out.
- The flag `primero` of page creation, which sets to 0 a clock hand that is 0 already or never used, is left out.
- HRRN and SJF ordering of the ready list: `Planner` lets a process be inserted anywhere.
- The planner lets any running process be suspended, without the test of `verificar_suspension`, and any process a CPU still has be posted early, queued or not; it leaves out abnormal disconnections, kills and shutdown.
- The choice and killing of deadlock victims, which posts the semaphore a victim waited on, is left out.
- Destroying a semaphore, and the input/output devices, are left out: they would only add easy members.
- The second address code, `crear_dl` and `traducir_dir_log`, which the read and write paths do not use.
- Widths of the tick counters: unbounded integers.
